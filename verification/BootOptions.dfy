/** The bounded argument and environment tables that project 2/main.c fills from the boot command line for
    the init process. */
module BootOptions {

  /** A slot of argv_init or envp_init. */
  datatype Slot = Null | Text(text: string)

  /** An option as parse_args hands it over: `value` is the part behind "=", and `quoted` whether it stood
      in double quotes. */
  datatype Value = NoValue | Plain(text: string) | Quoted(text: string)

  datatype Option =
    /** set_init_arg: anything behind "--". */
    | InitArg(name: string, value: Value)
    /** unknown_bootoption; `consumed` is whether obsolete_checksetup takes the option. */
    | Unknown(name: string, value: Value, consumed: bool)
    /** init= and rdinit=. */
    | Setup

  /** Both tables have limit + 2 slots. `panicking` is whether panic_later is set. */
  datatype Boot = Boot(args: seq<Slot>, envs: seq<Slot>, panicking: bool)

  /** The option text once repair_env_string has put "=" back and dropped the quote. */
  function Repaired(name: string, value: Value): string {
    match value
    case NoValue => name
    case Plain(text) => name + "=" + text
    case Quoted(text) => name + "=" + text
  }

  /** val - param in the caller, which does not see that repair_env_string moves a quoted value. */
  function ValueOffset(name: string, value: Value): nat {
    if value.Quoted? then |name| + 2 else |name| + 1
  }

  function Take(s: string, n: nat): string {
    if |s| < n then s else s[..n]
  }

  /** !strncmp(s, t, n) for strings without NUL. */
  predicate SamePrefix(s: string, t: string, n: nat) {
    Take(s, n) == Take(t, n)
  }

  /** The position of the first c, or the length of the string. */
  function IndexOf(s: string, c: char): (i: nat)
    ensures i <= |s| && (i < |s| ==> s[i] == c)
    ensures forall k :: 0 <= k < i ==> s[k] != c
  {
    if s == "" || s[0] == c then 0 else 1 + IndexOf(s[1..], c)
  }

  /** The option looks like a module parameter: a dot in front of the value. */
  predicate ModuleParameter(name: string, value: Value) {
    var text := Repaired(name, value);
    var dot := IndexOf(text, '.');
    dot < |text| && (value.NoValue? || dot < ValueOffset(name, value))
  }

  /** The first slot from i on that is null, or the size of the table. */
  function FirstNull(t: seq<Slot>, i: nat): (n: nat)
    requires i <= |t|
    ensures i <= n <= |t|
    ensures n < |t| ==> t[n] == Null
    ensures forall k :: i <= k < n ==> t[k] != Null
    decreases |t| - i
  {
    if i == |t| || t[i] == Null then i else FirstNull(t, i + 1)
  }

  /** The first slot from i on that is null or has the option's name, or the size of the table. */
  function FirstFor(t: seq<Slot>, text: string, n: nat, i: nat): (k: nat)
    requires i <= |t|
    ensures i <= k <= |t|
    ensures k < |t| ==> t[k] == Null || SamePrefix(text, t[k].text, n)
    ensures forall j :: i <= j < k ==> t[j] != Null && !SamePrefix(text, t[j].text, n)
    decreases |t| - i
  {
    if i == |t| || t[i] == Null || SamePrefix(text, t[i].text, n) then i else FirstFor(t, text, n, i + 1)
  }

  /** While nothing has overflowed the last slot of each table is null. */
  ghost predicate Terminated(limit: nat, b: Boot) {
    && |b.args| == |b.envs| == limit + 2
    && (!b.panicking ==> b.args[limit + 1] == Null && b.envs[limit + 1] == Null)
  }

  function AddArg(limit: nat, b: Boot, text: string): Boot
    requires Terminated(limit, b) && !b.panicking
  {
    var i := FirstNull(b.args, 0);
    b.(args := b.args[i := Text(text)], panicking := i > limit)
  }

  /** The counter passes `limit`, and panic_later is set, even when the name is then found in that slot. */
  function AddEnv(limit: nat, b: Boot, text: string, n: nat): Boot
    requires Terminated(limit, b) && !b.panicking
  {
    var i := FirstFor(b.envs, text, n, 0);
    b.(envs := b.envs[i := Text(text)], panicking := i >= limit && b.envs[limit] != Null)
  }

  function Step(limit: nat, b: Boot, o: Option): (r: Boot)
    requires Terminated(limit, b)
  {
    match o
    case InitArg(name, value) =>
      if b.panicking then b
      else if FirstNull(b.args, 0) > limit then b.(panicking := true)
      else AddArg(limit, b, Repaired(name, value))
    case Unknown(name, value, consumed) =>
      if consumed || ModuleParameter(name, value) || b.panicking then b
      else if value.NoValue? then AddArg(limit, b, Repaired(name, value))
      else AddEnv(limit, b, Repaired(name, value), ValueOffset(name, value))
    case Setup =>
      b.(args := seq(|b.args|, i requires 0 <= i < |b.args| => if 1 <= i < limit then Null else b.args[i]))
  }

  /** Every option keeps the tables terminated until one overflows. */
  lemma StepTerminated(limit: nat, b: Boot, o: Option)
    requires Terminated(limit, b)
    ensures Terminated(limit, Step(limit, b, o))
    ensures b.panicking ==> Step(limit, b, o).panicking && Step(limit, b, o).envs == b.envs
    ensures var c := Step(limit, b, o);
            (c.args[limit + 1] != b.args[limit + 1] || c.envs[limit + 1] != b.envs[limit + 1]) ==>
              !b.panicking && c.panicking
  {
    if !b.panicking && o.Unknown? && !o.value.NoValue? {
      var text, n := Repaired(o.name, o.value), ValueOffset(o.name, o.value);
      var i := FirstFor(b.envs, text, n, 0);
    }
  }

  // ---- Where an option goes, told from its name and value ----

  lemma IndexOfExactly(s: string, c: char)
    ensures IndexOf(s, c) < |s| <==> c in s
  {
  }

  /** A dot in the name makes an option look like a module parameter. So does one that opens a quoted value, since
      the pointer to the value still points one character further on; no other dot in a value does. */
  lemma ModuleParameterExactly(name: string, value: Value)
    ensures ModuleParameter(name, value) <==>
              '.' in name || (value.Quoted? && value.text != "" && value.text[0] == '.')
  {
    var text := Repaired(name, value);
    var dot := IndexOf(text, '.');
    IndexOfExactly(text, '.');
    if value.NoValue? {
    } else {
      assert text[|name|] == '=' && text[..|name|] == name && text[|name| + 1..] == value.text;
      if '.' in name {
        var k :| 0 <= k < |name| && name[k] == '.';
        assert text[k] == '.';
      } else {
        assert forall k :: 0 <= k < |name| ==> text[k] == name[k] && name[k] in name;
        assert value.text != "" ==> text[|name| + 1] == value.text[0];
      }
    }
  }

  /** set_init_arg puts the option into the first empty slot, or panics when slots 0 to limit are full. */
  lemma InitArgExactly(limit: nat, b: Boot, name: string, value: Value) returns (i: nat)
    requires Terminated(limit, b) && !b.panicking
    ensures i <= limit + 1 && b.args[i] == Null && forall j :: 0 <= j < i ==> b.args[j] != Null
    ensures Step(limit, b, InitArg(name, value)) ==
              if i == limit + 1 then b.(panicking := true)
              else b.(args := b.args[i := Text(if value.NoValue? then name else name + "=" + value.text)])
  {
    i := FirstNull(b.args, 0);
  }

  /** An unknown option without value goes into the first empty argument slot, whichever that is, and panic_later is
      set exactly when slots 0 to limit were full. */
  lemma UnknownArgExactly(limit: nat, b: Boot, name: string) returns (i: nat)
    requires Terminated(limit, b) && !b.panicking && '.' !in name
    ensures i <= limit + 1 && b.args[i] == Null && forall j :: 0 <= j < i ==> b.args[j] != Null
    ensures Step(limit, b, Unknown(name, NoValue, false)) ==
              b.(args := b.args[i := Text(name)], panicking := i == limit + 1)
  {
    ModuleParameterExactly(name, NoValue);
    i := FirstNull(b.args, 0);
  }

  /** One with a value goes into the first slot of the environment that is empty or starts like it up to the value,
      and panic_later is set exactly when slots 0 to limit are full and none of those in front of the limit is that
      slot. */
  lemma UnknownEnvExactly(limit: nat, b: Boot, name: string, value: Value) returns (i: nat)
    requires Terminated(limit, b) && !b.panicking && !value.NoValue? && '.' !in name
    requires value.Quoted? && value.text != "" ==> value.text[0] != '.'
    ensures var text, n := name + "=" + value.text, |name| + if value.Quoted? then 2 else 1;
            && i <= limit + 1 && (b.envs[i] == Null || SamePrefix(text, b.envs[i].text, n))
            && (forall j :: 0 <= j < i ==> b.envs[j] != Null && !SamePrefix(text, b.envs[j].text, n))
            && Step(limit, b, Unknown(name, value, false)) ==
                 b.(envs := b.envs[i := Text(text)], panicking := i >= limit && b.envs[limit] != Null)
  {
    ModuleParameterExactly(name, value);
    i := FirstFor(b.envs, Repaired(name, value), ValueOffset(name, value), 0);
  }

  /** What changes nothing: an option that a setup function takes or that looks like a module parameter, and, once
      panic_later is set, everything but init= and rdinit=, which always empty the slots 1 to limit - 1. */
  lemma NothingElseExactly(limit: nat, b: Boot, o: Option)
    requires Terminated(limit, b)
    ensures o.Unknown? && (o.consumed || '.' in o.name) ==> Step(limit, b, o) == b
    ensures o.Unknown? && o.value.Quoted? && o.value.text != "" && o.value.text[0] == '.' ==> Step(limit, b, o) == b
    ensures b.panicking && !o.Setup? ==> Step(limit, b, o) == b
    ensures o.Setup? ==>
              var c := Step(limit, b, o);
              && c.envs == b.envs && c.panicking == b.panicking && |c.args| == |b.args|
              && forall i :: 0 <= i < |b.args| ==> c.args[i] == if 0 < i < limit then Null else b.args[i]
  {
    if o.Unknown? { ModuleParameterExactly(o.name, o.value); }
  }

  // ---- Whole boots ----

  function Initial(limit: nat): Boot
    requires limit >= 1
  {
    Boot([Text("init")] + seq(limit + 1, _ => Null), [Text("HOME=/"), Text("TERM=linux")] + seq(limit, _ => Null), false)
  }

  ghost function After(limit: nat, run: seq<Option>): (b: Boot)
    requires limit >= 1
    ensures Terminated(limit, b)
  {
    if run == [] then Initial(limit)
    else
      StepTerminated(limit, After(limit, run[..|run| - 1]), run[|run| - 1]);
      Step(limit, After(limit, run[..|run| - 1]), run[|run| - 1])
  }

  /** Over every sequence of options: while panic_later is unset every scan of either table stops inside it,
      and a last slot is filled only by a call that sets panic_later. */
  lemma ScansStayInside(limit: nat, run: seq<Option>, o: Option)
    requires limit >= 1
    ensures var b := After(limit, run);
            var c := Step(limit, b, o);
            && (!b.panicking ==> FirstNull(b.args, 0) <= limit + 1 && FirstNull(b.envs, 0) <= limit + 1)
            && ((c.args[limit + 1] != b.args[limit + 1] || c.envs[limit + 1] != b.envs[limit + 1]) ==>
                  !b.panicking && c.panicking)
  {
    StepTerminated(limit, After(limit, run), o);
  }

  // ---- When there is room ----

  /** How many options become arguments of init, init= or not. */
  function ArgCount(run: seq<Option>): nat {
    if run == [] then 0
    else
      var o := run[|run| - 1];
      ArgCount(run[..|run| - 1]) + if o.InitArg? || (o.Unknown? && o.value.NoValue?) then 1 else 0
  }

  /** How many options have a value and may become environment entries. */
  function EnvCount(run: seq<Option>): nat {
    if run == [] then 0
    else
      var o := run[|run| - 1];
      EnvCount(run[..|run| - 1]) + if o.Unknown? && !o.value.NoValue? then 1 else 0
  }

  lemma RoomNext(limit: nat, b: Boot, o: Option, args: nat, envs: nat)
    requires Terminated(limit, b) && !b.panicking && args <= limit + 1 && envs <= limit + 1
    requires (forall i :: args <= i < |b.args| ==> b.args[i] == Null) && forall i :: envs <= i < |b.envs| ==> b.envs[i] == Null
    requires (o.InitArg? || (o.Unknown? && o.value.NoValue?)) ==> args <= limit
    requires o.Unknown? && !o.value.NoValue? ==> envs <= limit
    ensures var c := Step(limit, b, o);
            && !c.panicking
            && (forall i :: args + 1 <= i < |c.args| ==> c.args[i] == Null)
            && (!(o.InitArg? || (o.Unknown? && o.value.NoValue?)) ==> forall i :: args <= i < |c.args| ==> c.args[i] == Null)
            && (forall i :: envs + 1 <= i < |c.envs| ==> c.envs[i] == Null)
            && (!(o.Unknown? && !o.value.NoValue?) ==> forall i :: envs <= i < |c.envs| ==> c.envs[i] == Null)
  {
    var i := FirstNull(b.args, 0);
    assert b.args[args] == Null && i <= args;
    if o.Unknown? && !o.value.NoValue? {
      var k := FirstFor(b.envs, Repaired(o.name, o.value), ValueOffset(o.name, o.value), 0);
      assert b.envs[envs] == Null && k <= envs;
    }
  }

  /** A command line with at most `limit` options for init and fewer than `limit` environment options never sets
      panic_later: two of the slots 0 to limit of the environment are taken at the start. */
  lemma {:induction false} EnoughRoom(limit: nat, run: seq<Option>)
    requires limit >= 1 && ArgCount(run) <= limit && EnvCount(run) < limit
    ensures !After(limit, run).panicking
    ensures forall i :: ArgCount(run) < i < limit + 2 ==> After(limit, run).args[i] == Null
    ensures forall i :: EnvCount(run) + 2 <= i < limit + 2 ==> After(limit, run).envs[i] == Null
  {
    if run == [] {
    } else {
      var front, o := run[..|run| - 1], run[|run| - 1];
      EnoughRoom(limit, front);
      RoomNext(limit, After(limit, front), o, ArgCount(front) + 1, EnvCount(front) + 2);
    }
  }

  // ---- The arguments of init ----

  /** The option becomes an argument of init. */
  predicate SetsArg(o: Option) {
    o.InitArg? || (o.Unknown? && !o.consumed && o.value.NoValue? && !ModuleParameter(o.name, o.value))
  }

  /** What init should get besides its name: the arguments given since the last init= or rdinit=. */
  function Arguments(run: seq<Option>): seq<string> {
    if run == [] then []
    else
      var o := run[|run| - 1];
      if o.Setup? then []
      else Arguments(run[..|run| - 1]) + if SetsArg(o) then [Repaired(o.name, o.value)] else []
  }

  /** The table holds init's name, then the list, then nothing. */
  ghost predicate HoldsArguments(args: seq<Slot>, list: seq<string>) {
    && |list| < |args| && args[0] == Text("init")
    && (forall i :: 1 <= i <= |list| ==> args[i] == Text(list[i - 1]))
    && (forall i :: |list| < i < |args| ==> args[i] == Null)
  }

  lemma AddArgHolds(limit: nat, b: Boot, list: seq<string>, text: string)
    requires Terminated(limit, b) && !b.panicking && HoldsArguments(b.args, list)
    ensures FirstNull(b.args, 0) == |list| + 1 <= limit + 1
    ensures HoldsArguments(AddArg(limit, b, text).args, list + [text]) || AddArg(limit, b, text).panicking
  {
    var k := |list| + 1;
    assert forall j :: 1 <= j < k ==> b.args[j] == Text(list[j - 1]);
    assert b.args[limit + 1] == Null && b.args[k] == Null;
  }

  /** init= forgets the arguments in front of it, as its comment says, exactly when the slot at the limit
      is empty. */
  lemma SetupForgetsExactly(limit: nat, b: Boot)
    requires limit >= 1 && Terminated(limit, b) && !b.panicking && b.args[0] == Text("init")
    ensures HoldsArguments(Step(limit, b, Setup).args, []) <==> b.args[limit] == Null
  {
    assert Step(limit, b, Setup).args[limit] == b.args[limit];
  }

  lemma ArgumentsNext(limit: nat, b: Boot, o: Option, list: seq<string>)
    requires limit >= 1 && Terminated(limit, b) && HoldsArguments(b.args, list)
    requires !Step(limit, b, o).panicking && !o.Setup?
    ensures HoldsArguments(Step(limit, b, o).args, list + if SetsArg(o) then [Repaired(o.name, o.value)] else [])
  {
    StepTerminated(limit, b, o);
    if SetsArg(o) {
      AddArgHolds(limit, b, list, Repaired(o.name, o.value));
    } else {
      assert list + [] == list;
    }
  }

  lemma PrefixAfter(limit: nat, run: seq<Option>, k: nat)
    requires limit >= 1 && k < |run|
    ensures After(limit, run[..k + 1]) == Step(limit, After(limit, run[..k]), run[k])
    ensures Arguments(run[..k + 1]) == if run[k].Setup? then [] else
              Arguments(run[..k]) + if SetsArg(run[k]) then [Repaired(run[k].name, run[k].value)] else []
  {
    assert run[..k + 1][..k] == run[..k];
  }

  lemma {:induction false} NoPanicBefore(limit: nat, run: seq<Option>, k: nat)
    requires limit >= 1 && k <= |run| && !After(limit, run).panicking
    ensures !After(limit, run[..k]).panicking
    decreases |run| - k
  {
    if k < |run| {
      NoPanicBefore(limit, run, k + 1);
      PrefixAfter(limit, run, k);
      StepTerminated(limit, After(limit, run[..k]), run[k]);
    } else {
      assert run[..k] == run;
    }
  }

  /** After k options the table holds init's name and the arguments it should get. */
  ghost predicate ArgumentsRightAt(limit: nat, run: seq<Option>, k: nat)
    requires limit >= 1 && k <= |run|
  {
    HoldsArguments(After(limit, run[..k]).args, Arguments(run[..k]))
  }

  /** Option k is no init= that comes after as many arguments as the limit allows. */
  predicate ForgetsAt(limit: nat, run: seq<Option>, k: nat)
    requires k < |run|
  {
    run[k].Setup? ==> |Arguments(run[..k])| < limit
  }

  lemma {:induction false} ArgumentsRight(limit: nat, run: seq<Option>, k: nat)
    requires limit >= 1 && k <= |run| && !After(limit, run).panicking
    requires forall i :: 0 <= i < k ==> ForgetsAt(limit, run, i)
    ensures ArgumentsRightAt(limit, run, k)
  {
    NoPanicBefore(limit, run, k);
    if k == 0 {
      assert run[..0] == [];
    } else {
      ArgumentsRight(limit, run, k - 1);
      NoPanicBefore(limit, run, k - 1);
      PrefixAfter(limit, run, k - 1);
      assert ForgetsAt(limit, run, k - 1);
      if run[k - 1].Setup? {
        SetupForgetsExactly(limit, After(limit, run[..k - 1]));
      } else {
        ArgumentsNext(limit, After(limit, run[..k - 1]), run[k - 1], Arguments(run[..k - 1]));
      }
    }
  }

  /** While nothing overflows, init's arguments are throughout those given since the last init=, in order,
      exactly when no init= came after as many arguments as the limit allows. */
  lemma ArgumentsExactly(limit: nat, run: seq<Option>)
    requires limit >= 1 && !After(limit, run).panicking
    ensures (forall k :: 0 <= k <= |run| ==> ArgumentsRightAt(limit, run, k))
       <==> (forall k :: 0 <= k < |run| ==> ForgetsAt(limit, run, k))
  {
    if forall k :: 0 <= k <= |run| ==> ArgumentsRightAt(limit, run, k) {
      forall k | 0 <= k < |run|
        ensures ForgetsAt(limit, run, k)
      {
        assert ArgumentsRightAt(limit, run, k) && ArgumentsRightAt(limit, run, k + 1);
        NoPanicBefore(limit, run, k);
        PrefixAfter(limit, run, k);
        SetupForgetsExactly(limit, After(limit, run[..k]));
      }
    } else {
      var k: nat :| k <= |run| && !ArgumentsRightAt(limit, run, k);
      if forall i :: 0 <= i < k ==> ForgetsAt(limit, run, i) {
        ArgumentsRight(limit, run, k);
      }
    }
  }

  /** The same argument n times. */
  function Repeated(name: string, n: nat): seq<Option> {
    seq(n, _ => InitArg(name, NoValue))
  }

  lemma {:induction false} Fills(limit: nat, name: string, n: nat)
    requires 1 <= limit && n <= limit
    ensures !After(limit, Repeated(name, n)).panicking
    ensures HoldsArguments(After(limit, Repeated(name, n)).args, seq(n, _ => name))
  {
    if n == 0 {
    } else {
      var run := Repeated(name, n);
      Fills(limit, name, n - 1);
      assert run[..n - 1] == Repeated(name, n - 1);
      var b := After(limit, run[..n - 1]);
      AddArgHolds(limit, b, seq(n - 1, _ => name), name);
      assert seq(n - 1, _ => name) + [name] == seq(n, _ => name);
    }
  }

  /** With as many arguments as the limit allows, the last one given before init= is still there after it. */
  lemma LastArgumentStays(limit: nat, name: string)
    requires limit >= 1
    ensures var run := Repeated(name, limit) + [Setup];
            !After(limit, run).panicking && Arguments(run) == [] && After(limit, run).args[limit] == Text(name)
  {
    var run := Repeated(name, limit) + [Setup];
    Fills(limit, name, limit);
    assert run[..limit] == Repeated(name, limit);
    PrefixAfter(limit, run, limit);
    assert run[..limit + 1] == run;
  }

  // ---- Environment names ----

  /** Everything up to and including the first "=". */
  function KeyOf(text: string): string
    requires '=' in text
  {
    text[..IndexOf(text, '=') + 1]
  }

  predicate IsEntry(slot: Slot) {
    slot.Text? && '=' in slot.text
  }

  lemma KeyOfOption(name: string, text: string)
    requires '=' !in name
    ensures '=' in name + "=" + text && KeyOf(name + "=" + text) == name + "="
  {
    var s := name + "=" + text;
    assert s[|name|] == '=';
    assert forall k :: 0 <= k < |name| ==> s[k] == name[k] && name[k] in name;
    assert IndexOf(s, '=') == |name|;
    assert s[..|name| + 1] == name + "=";
  }

  /** For a plain value the comparison finds exactly the entries with the same name. */
  lemma PlainFindsName(name: string, text: string, entry: string)
    requires '=' !in name && '=' in entry
    ensures SamePrefix(name + "=" + text, entry, |name| + 1) <==> KeyOf(entry) == name + "="
  {
    var s, n := name + "=" + text, |name| + 1;
    assert Take(s, n) == name + "=";
    var k := IndexOf(entry, '=');
    if Take(entry, n) == name + "=" {
      assert entry[..n] == name + "=";
      assert forall i :: 0 <= i < n ==> entry[i] == (name + "=")[i];
      assert forall i :: 0 <= i < |name| ==> entry[i] == name[i] && name[i] in name;
      assert (name + "=")[|name|] == '=';
      assert k == |name|;
    }
    if KeyOf(entry) == name + "=" {
      assert |KeyOf(entry)| == k + 1 == n;
    }
  }

  /** For a quoted value it also compares the first character of the value, so an entry with the same name
      is found exactly when the values start alike. */
  lemma QuotedFindsNameAndInitial(name: string, text: string, old_text: string)
    requires '=' !in name
    ensures SamePrefix(name + "=" + text, name + "=" + old_text, |name| + 2) <==> Take(text, 1) == Take(old_text, 1)
  {
    var s, t, n := name + "=" + text, name + "=" + old_text, |name| + 2;
    assert Take(s, n) == name + "=" + Take(text, 1);
    assert Take(t, n) == name + "=" + Take(old_text, 1);
    assert (name + "=" + Take(text, 1))[|name| + 1..] == Take(text, 1);
    assert (name + "=" + Take(old_text, 1))[|name| + 1..] == Take(old_text, 1);
  }

  /** The first n slots are entries with distinct names, and the rest is empty. */
  ghost predicate Distinct(envs: seq<Slot>, n: nat) {
    && n <= |envs|
    && (forall i :: 0 <= i < n ==> IsEntry(envs[i]))
    && (forall i, j :: 0 <= i < j < n ==> KeyOf(envs[i].text) != KeyOf(envs[j].text))
    && (forall i :: n <= i < |envs| ==> envs[i] == Null)
  }

  /** The entries are exactly those of the map from names to entries. */
  ghost predicate Shows(envs: seq<Slot>, n: nat, m: map<string, string>)
    requires Distinct(envs, n)
  {
    && (forall i :: 0 <= i < n ==> KeyOf(envs[i].text) in m && m[KeyOf(envs[i].text)] == envs[i].text)
    && (forall k :: k in m ==> exists i :: 0 <= i < n && KeyOf(envs[i].text) == k)
  }

  /** An environment option that is neither taken by a setup function nor a module parameter. */
  predicate SetsEnv(o: Option) {
    o.Unknown? && !o.consumed && !o.value.NoValue? && !ModuleParameter(o.name, o.value)
  }

  predicate Unquoted(o: Option) {
    !o.Setup? ==> !o.value.Quoted? && '=' !in o.name
  }

  /** What the options so far say about each name: the latest entry. */
  function Latest(run: seq<Option>): map<string, string> {
    if run == [] then map["HOME=" := "HOME=/", "TERM=" := "TERM=linux"]
    else
      var o := run[|run| - 1];
      var m := Latest(run[..|run| - 1]);
      if SetsEnv(o) then m[o.name + "=" := Repaired(o.name, o.value)] else m
  }

  lemma ReplacedDistinct(envs: seq<Slot>, n: nat, k: nat, entry: string)
    requires Distinct(envs, n) && k < n && '=' in entry && KeyOf(envs[k].text) == KeyOf(entry)
    ensures Distinct(envs[k := Text(entry)], n)
    ensures forall i :: 0 <= i < n ==> KeyOf(envs[k := Text(entry)][i].text) == KeyOf(envs[i].text)
  {
    var t := envs[k := Text(entry)];
    assert forall i :: 0 <= i < n ==> IsEntry(t[i]) && KeyOf(t[i].text) == KeyOf(envs[i].text);
  }

  lemma ReplacedShows(envs: seq<Slot>, n: nat, m: map<string, string>, k: nat, entry: string)
    requires Distinct(envs, n) && Shows(envs, n, m) && k < n && '=' in entry
    requires KeyOf(envs[k].text) == KeyOf(entry)
    ensures var t := envs[k := Text(entry)];
            Distinct(t, n) && Shows(t, n, m[KeyOf(entry) := entry])
  {
    var t, m' := envs[k := Text(entry)], m[KeyOf(entry) := entry];
    ReplacedDistinct(envs, n, k, entry);
    forall i | 0 <= i < n
      ensures KeyOf(t[i].text) in m' && m'[KeyOf(t[i].text)] == t[i].text
    {
      assert i != k ==> KeyOf(envs[i].text) != KeyOf(envs[k].text);
    }
    forall key | key in m'
      ensures exists i :: 0 <= i < n && KeyOf(t[i].text) == key
    {
      if key == KeyOf(entry) {
        assert KeyOf(t[k].text) == key;
      } else {
        var i :| 0 <= i < n && KeyOf(envs[i].text) == key;
        assert KeyOf(t[i].text) == key;
      }
    }
  }

  lemma AppendedDistinct(envs: seq<Slot>, n: nat, entry: string)
    requires Distinct(envs, n) && n < |envs| && '=' in entry
    requires forall i :: 0 <= i < n ==> KeyOf(envs[i].text) != KeyOf(entry)
    ensures Distinct(envs[n := Text(entry)], n + 1)
  {
  }

  lemma AppendedShows(envs: seq<Slot>, n: nat, m: map<string, string>, entry: string)
    requires Distinct(envs, n) && Shows(envs, n, m) && n < |envs| && '=' in entry
    requires forall i :: 0 <= i < n ==> KeyOf(envs[i].text) != KeyOf(entry)
    ensures var t := envs[n := Text(entry)];
            Distinct(t, n + 1) && Shows(t, n + 1, m[KeyOf(entry) := entry])
  {
    var t, m' := envs[n := Text(entry)], m[KeyOf(entry) := entry];
    AppendedDistinct(envs, n, entry);
    forall i | 0 <= i < n + 1
      ensures KeyOf(t[i].text) in m' && m'[KeyOf(t[i].text)] == t[i].text
    {
      assert i < n ==> t[i] == envs[i];
    }
    forall key | key in m'
      ensures exists i :: 0 <= i < n + 1 && KeyOf(t[i].text) == key
    {
      if key == KeyOf(entry) {
        assert KeyOf(t[n].text) == key;
      } else {
        var i :| 0 <= i < n && KeyOf(envs[i].text) == key;
        assert t[i] == envs[i];
      }
    }
  }

  lemma PlacedShows(envs: seq<Slot>, n: nat, m: map<string, string>, entry: string, i: nat)
    requires Distinct(envs, n) && Shows(envs, n, m) && '=' in entry && i <= n && i < |envs|
    requires i < n ==> KeyOf(envs[i].text) == KeyOf(entry)
    requires i == n ==> forall j :: 0 <= j < n ==> KeyOf(envs[j].text) != KeyOf(entry)
    ensures var t, k := envs[i := Text(entry)], if i < n then n else n + 1;
            Distinct(t, k) && Shows(t, k, m[KeyOf(entry) := entry])
  {
    if i < n {
      ReplacedShows(envs, n, m, i, entry);
    } else {
      AppendedShows(envs, n, m, entry);
    }
  }

  /** Among n entries the search stops at the entry with the option's name, or behind all of them. */
  lemma PlainStopsAtName(envs: seq<Slot>, n: nat, name: string, text: string)
    requires Distinct(envs, n) && n < |envs| && '=' !in name
    ensures var i := FirstFor(envs, name + "=" + text, |name| + 1, 0);
            && i <= n
            && (i < n ==> KeyOf(envs[i].text) == name + "=")
            && (i == n ==> forall j :: 0 <= j < n ==> KeyOf(envs[j].text) != name + "=")
  {
    var entry, key := name + "=" + text, name + "=";
    var i := FirstFor(envs, entry, |name| + 1, 0);
    assert envs[n] == Null;
    forall j | 0 <= j < n
      ensures SamePrefix(entry, envs[j].text, |name| + 1) <==> KeyOf(envs[j].text) == key
    {
      PlainFindsName(name, text, envs[j].text);
    }
  }

  lemma TwoEntries(envs: seq<Slot>, a: string, b: string)
    requires |envs| >= 2 && envs[0] == Text(a) && envs[1] == Text(b) && '=' in a && '=' in b
    requires forall i :: 2 <= i < |envs| ==> envs[i] == Null
    requires KeyOf(a) != KeyOf(b)
    ensures Distinct(envs, 2) && Shows(envs, 2, map[KeyOf(a) := a, KeyOf(b) := b])
  {
    assert KeyOf(envs[0].text) == KeyOf(a) && KeyOf(envs[1].text) == KeyOf(b);
  }

  lemma HomeKey()
    ensures '=' in "HOME=/" && KeyOf("HOME=/") == "HOME="
  {
    KeyOfOption("HOME", "/");
    assert "HOME" + "=" + "/" == "HOME=/" && "HOME" + "=" == "HOME=";
  }

  lemma TermKey()
    ensures '=' in "TERM=linux" && KeyOf("TERM=linux") == "TERM="
  {
    KeyOfOption("TERM", "linux");
    assert "TERM" + "=" + "linux" == "TERM=linux" && "TERM" + "=" == "TERM=";
  }

  lemma InitialShows(limit: nat)
    requires limit >= 1
    ensures Distinct(Initial(limit).envs, 2) && Shows(Initial(limit).envs, 2, Latest([]))
  {
    HomeKey();
    TermKey();
    assert "HOME="[0] == 'H' && "TERM="[0] == 'T';
    TwoEntries(Initial(limit).envs, "HOME=/", "TERM=linux");
  }

  // ---- Quoted values ----

  /** The table holds every name once. */
  ghost predicate NamesDistinct(envs: seq<Slot>) {
    exists n :: 0 <= n <= |envs| && Distinct(envs, n)
  }

  /** The entry has the option's name, and its value starts differently. */
  predicate Misses(entry: string, name: string, text: string)
    requires '=' in entry
  {
    KeyOf(entry) == name + "=" && Take(entry[|name| + 1..], 1) != Take(text, 1)
  }

  /** What the search makes of one entry when the option is quoted. */
  lemma QuotedFinds(name: string, text: string, entry: string)
    requires '=' !in name && '=' in entry
    ensures SamePrefix(name + "=" + text, entry, |name| + 2) <==>
              KeyOf(entry) == name + "=" && !Misses(entry, name, text)
  {
    if KeyOf(entry) == name + "=" {
      assert entry == name + "=" + entry[|name| + 1..];
      QuotedFindsNameAndInitial(name, text, entry[|name| + 1..]);
    } else {
      OtherNameDiffers(name, text, entry);
    }
  }

  lemma RepeatedNotDistinct(envs: seq<Slot>, j: nat, n: nat)
    requires j < n < |envs| && IsEntry(envs[j]) && IsEntry(envs[n]) && KeyOf(envs[j].text) == KeyOf(envs[n].text)
    ensures !NamesDistinct(envs)
  {
    forall k | 0 <= k <= |envs|
      ensures !Distinct(envs, k)
    {
      assert k <= n ==> envs[n] != Null;
    }
  }

  lemma QuotedStops(envs: seq<Slot>, n: nat, name: string, text: string)
    requires Distinct(envs, n) && n < |envs| && '=' !in name
    ensures var i := FirstFor(envs, name + "=" + text, |name| + 2, 0);
            && i <= n
            && (i < n ==> KeyOf(envs[i].text) == name + "=" && !Misses(envs[i].text, name, text))
            && (i == n ==> forall j :: 0 <= j < n ==>
                  KeyOf(envs[j].text) != name + "=" || Misses(envs[j].text, name, text))
  {
    assert envs[n] == Null;
    forall j | 0 <= j < n
      ensures SamePrefix(name + "=" + text, envs[j].text, |name| + 2) <==>
                KeyOf(envs[j].text) == name + "=" && !Misses(envs[j].text, name, text)
    {
      QuotedFinds(name, text, envs[j].text);
    }
  }

  lemma FoundNeverMisses(envs: seq<Slot>, n: nat, i: nat, name: string, text: string)
    requires Distinct(envs, n) && i < n && KeyOf(envs[i].text) == name + "=" && !Misses(envs[i].text, name, text)
    ensures forall j :: 0 <= j < n ==> !Misses(envs[j].text, name, text)
  {
    assert forall j :: 0 <= j < n && j != i ==> KeyOf(envs[j].text) != KeyOf(envs[i].text);
  }

  /** A quoted option leaves every name in the table once exactly when no entry of its name has a value that
      starts with another character. */
  lemma QuotedKeepsNamesExactly(limit: nat, b: Boot, n: nat, name: string, text: string)
    requires Terminated(limit, b) && !b.panicking && '=' !in name && n <= limit + 1 && Distinct(b.envs, n)
    ensures var c := AddEnv(limit, b, name + "=" + text, |name| + 2);
            NamesDistinct(c.envs) <==> forall j :: 0 <= j < n ==> !Misses(b.envs[j].text, name, text)
  {
    var entry := name + "=" + text;
    var i := FirstFor(b.envs, entry, |name| + 2, 0);
    var t := b.envs[i := Text(entry)];
    KeyOfOption(name, text);
    QuotedStops(b.envs, n, name, text);
    if i < n {
      ReplacedDistinct(b.envs, n, i, entry);
      FoundNeverMisses(b.envs, n, i, name, text);
    } else if j :| 0 <= j < n && Misses(b.envs[j].text, name, text) {
      RepeatedNotDistinct(t, j, n);
    } else {
      AppendedDistinct(b.envs, n, entry);
    }
  }

  // ---- The environment over whole runs ----

  /** Every entry of the option's name has a value that starts as the quoted one does. */
  ghost predicate Alike(envs: seq<Slot>, n: nat, name: string, value: Value)
    requires Distinct(envs, n)
  {
    value.Quoted? ==> forall j :: 0 <= j < n ==> !Misses(envs[j].text, name, value.text)
  }

  /** An environment option with such a value replaces the entry of its name or is appended. */
  lemma AddEnvShows(limit: nat, b: Boot, n: nat, m: map<string, string>, name: string, value: Value) returns (k: nat)
    requires Terminated(limit, b) && !b.panicking && '=' !in name && n <= limit + 1 && !value.NoValue?
    requires Distinct(b.envs, n) && Shows(b.envs, n, m) && Alike(b.envs, n, name, value)
    ensures var c := AddEnv(limit, b, Repaired(name, value), ValueOffset(name, value));
            !c.panicking ==>
              n <= k <= limit + 1 && Distinct(c.envs, k) && Shows(c.envs, k, m[name + "=" := Repaired(name, value)])
  {
    var entry := name + "=" + value.text;
    var i := FirstFor(b.envs, entry, ValueOffset(name, value), 0);
    KeyOfOption(name, value.text);
    if value.Plain? {
      PlainStopsAtName(b.envs, n, name, value.text);
    } else {
      QuotedStops(b.envs, n, name, value.text);
    }
    PlacedShows(b.envs, n, m, entry, i);
    k := if i < n then n else n + 1;
  }

  /** After k options the environment holds every name once, with the latest entry for it. */
  ghost predicate EnvironmentRightAt(limit: nat, run: seq<Option>, k: nat)
    requires limit >= 1 && k <= |run|
  {
    exists n :: 0 <= n <= limit + 1 && Distinct(After(limit, run[..k]).envs, n)
                && Shows(After(limit, run[..k]).envs, n, Latest(run[..k]))
  }

  /** A quoted value starts as the latest value of its name does. */
  predicate AlikeLatest(m: map<string, string>, name: string, value: Value) {
    value.Quoted? && name + "=" in m ==>
      var entry, n := m[name + "="], |name| + 1;
      n <= |entry| ==> Take(entry[n..], 1) == Take(value.text, 1)
  }

  /** Option k, if it sets an environment entry, has such a value. */
  predicate AlikeAt(run: seq<Option>, k: nat)
    requires k < |run|
  {
    SetsEnv(run[k]) ==> AlikeLatest(Latest(run[..k]), run[k].name, run[k].value)
  }

  /** As options come from the command line: the name ends at the first "=". */
  predicate WellNamed(o: Option) {
    o.Setup? || '=' !in o.name
  }

  /** On a right environment the condition on the latest value is the one on the entries. */
  lemma AlikeExactly(envs: seq<Slot>, n: nat, m: map<string, string>, name: string, value: Value)
    requires Distinct(envs, n) && Shows(envs, n, m)
    ensures Alike(envs, n, name, value) <==> AlikeLatest(m, name, value)
  {
    var key := name + "=";
    if key in m {
      var i :| 0 <= i < n && KeyOf(envs[i].text) == key;
      assert m[key] == envs[i].text && |key| <= |envs[i].text|;
      assert forall j :: 0 <= j < n && j != i ==> KeyOf(envs[j].text) != key;
    } else {
      assert forall j :: 0 <= j < n ==> KeyOf(envs[j].text) in m;
    }
  }

  lemma LatestNext(run: seq<Option>, k: nat)
    requires k < |run|
    ensures Latest(run[..k + 1]) == if SetsEnv(run[k])
                                    then Latest(run[..k])[run[k].name + "=" := Repaired(run[k].name, run[k].value)]
                                    else Latest(run[..k])
  {
    assert run[..k + 1][..k] == run[..k];
  }

  lemma OthersKeepEnvironment(limit: nat, b: Boot, o: Option)
    requires Terminated(limit, b) && !SetsEnv(o)
    ensures Step(limit, b, o).envs == b.envs
  {
  }

  lemma EnvironmentNext(limit: nat, run: seq<Option>, k: nat)
    requires limit >= 1 && k < |run| && WellNamed(run[k])
    requires !After(limit, run[..k]).panicking && !After(limit, run[..k + 1]).panicking
    requires EnvironmentRightAt(limit, run, k) && AlikeAt(run, k)
    ensures EnvironmentRightAt(limit, run, k + 1)
  {
    var b, o := After(limit, run[..k]), run[k];
    var n :| 0 <= n <= limit + 1 && Distinct(b.envs, n) && Shows(b.envs, n, Latest(run[..k]));
    PrefixAfter(limit, run, k);
    LatestNext(run, k);
    if SetsEnv(o) {
      AlikeExactly(b.envs, n, Latest(run[..k]), o.name, o.value);
      var j := AddEnvShows(limit, b, n, Latest(run[..k]), o.name, o.value);
      assert Distinct(After(limit, run[..k + 1]).envs, j);
    } else {
      OthersKeepEnvironment(limit, b, o);
      assert Distinct(After(limit, run[..k + 1]).envs, n);
    }
  }

  lemma RightIsDistinct(limit: nat, run: seq<Option>, k: nat)
    requires limit >= 1 && k <= |run| && EnvironmentRightAt(limit, run, k)
    ensures NamesDistinct(After(limit, run[..k]).envs)
  {
  }

  lemma QuotedBreaks(limit: nat, b: Boot, n: nat, m: map<string, string>, name: string, text: string)
    requires Terminated(limit, b) && !b.panicking && '=' !in name && n <= limit + 1
    requires Distinct(b.envs, n) && Shows(b.envs, n, m)
    requires NamesDistinct(AddEnv(limit, b, name + "=" + text, |name| + 2).envs)
    ensures AlikeLatest(m, name, Quoted(text))
  {
    QuotedKeepsNamesExactly(limit, b, n, name, text);
    AlikeExactly(b.envs, n, m, name, Quoted(text));
  }

  lemma EnvironmentBreaks(limit: nat, run: seq<Option>, k: nat)
    requires limit >= 1 && k < |run| && WellNamed(run[k]) && !After(limit, run[..k]).panicking
    requires EnvironmentRightAt(limit, run, k) && EnvironmentRightAt(limit, run, k + 1)
    ensures AlikeAt(run, k)
  {
    var b, o := After(limit, run[..k]), run[k];
    var n :| 0 <= n <= limit + 1 && Distinct(b.envs, n) && Shows(b.envs, n, Latest(run[..k]));
    PrefixAfter(limit, run, k);
    if SetsEnv(o) && o.value.Quoted? {
      RightIsDistinct(limit, run, k + 1);
      QuotedBreaks(limit, b, n, Latest(run[..k]), o.name, o.value.text);
    }
  }

  lemma {:induction false} EnvironmentRight(limit: nat, run: seq<Option>, k: nat)
    requires limit >= 1 && k <= |run| && !After(limit, run).panicking
    requires forall i :: 0 <= i < |run| ==> WellNamed(run[i])
    requires forall i :: 0 <= i < k ==> AlikeAt(run, i)
    ensures EnvironmentRightAt(limit, run, k)
  {
    if k == 0 {
      assert run[..0] == [];
      InitialShows(limit);
      assert Distinct(After(limit, run[..0]).envs, 2);
    } else {
      EnvironmentRight(limit, run, k - 1);
      NoPanicBefore(limit, run, k);
      NoPanicBefore(limit, run, k - 1);
      EnvironmentNext(limit, run, k - 1);
    }
  }

  /** While nothing overflows, the environment holds throughout every name once with the latest value given for
      it, exactly when every quoted value starts as the latest value of its name does. */
  lemma EnvironmentExactly(limit: nat, run: seq<Option>)
    requires limit >= 1 && !After(limit, run).panicking && forall i :: 0 <= i < |run| ==> WellNamed(run[i])
    ensures (forall k :: 0 <= k <= |run| ==> EnvironmentRightAt(limit, run, k))
       <==> (forall k :: 0 <= k < |run| ==> AlikeAt(run, k))
  {
    if forall k :: 0 <= k <= |run| ==> EnvironmentRightAt(limit, run, k) {
      forall k | 0 <= k < |run|
        ensures AlikeAt(run, k)
      {
        assert EnvironmentRightAt(limit, run, k) && EnvironmentRightAt(limit, run, k + 1);
        NoPanicBefore(limit, run, k);
        EnvironmentBreaks(limit, run, k);
      }
    } else {
      var k: nat :| k <= |run| && !EnvironmentRightAt(limit, run, k);
      if forall i :: 0 <= i < k ==> AlikeAt(run, i) {
        EnvironmentRight(limit, run, k);
      }
    }
  }

  /** Both tables after a whole command line. */
  lemma CommandLine(limit: nat, run: seq<Option>)
    requires limit >= 1 && !After(limit, run).panicking
    ensures (forall k :: 0 <= k < |run| ==> ForgetsAt(limit, run, k)) ==>
              HoldsArguments(After(limit, run).args, Arguments(run))
    ensures (forall k :: 0 <= k < |run| ==> WellNamed(run[k]) && AlikeAt(run, k)) ==>
              exists n :: 0 <= n <= limit + 1 && Distinct(After(limit, run).envs, n)
                          && Shows(After(limit, run).envs, n, Latest(run))
  {
    assert run[..|run|] == run;
    if forall k :: 0 <= k < |run| ==> ForgetsAt(limit, run, k) {
      ArgumentsRight(limit, run, |run|);
    }
    if forall k :: 0 <= k < |run| ==> WellNamed(run[k]) && AlikeAt(run, k) {
      EnvironmentRight(limit, run, |run|);
    }
  }

  /** As long as nothing overflows, and with plain values only, the environment holds every name once, with
      the latest value given for it. */
  lemma EnvironmentIsLatest(limit: nat, run: seq<Option>) returns (n: nat)
    requires limit >= 1 && !After(limit, run).panicking
    requires forall i :: 0 <= i < |run| ==> Unquoted(run[i])
    ensures n <= limit + 1 && Distinct(After(limit, run).envs, n) && Shows(After(limit, run).envs, n, Latest(run))
  {
    EnvironmentRight(limit, run, |run|);
    assert run[..|run|] == run;
    n :| 0 <= n <= limit + 1 && Distinct(After(limit, run).envs, n) && Shows(After(limit, run).envs, n, Latest(run));
  }

  lemma FirstForAt(t: seq<Slot>, text: string, n: nat, k: nat)
    requires k < |t| && t[k] == Null
    requires forall i :: 0 <= i < k ==> t[i] != Null && !SamePrefix(text, t[i].text, n)
    ensures FirstFor(t, text, n, 0) == k
  {
    var f := FirstFor(t, text, n, 0);
  }

  lemma NoDot(s: string)
    requires '.' !in s
    ensures IndexOf(s, '.') == |s|
  {
    assert forall i :: 0 <= i < |s| ==> s[i] in s;
  }

  /** Two quoted options of one name whose values start differently are both kept. */
  lemma QuotedNameTwice(limit: nat, b: Boot, n: nat, name: string, first: string, second: string)
    requires Terminated(limit, b) && !b.panicking && n + 2 <= limit
    requires Distinct(b.envs, n) && '=' !in name && '.' !in name + "=" + first && '.' !in name + "=" + second
    requires forall i :: 0 <= i < n ==> KeyOf(b.envs[i].text) != name + "="
    requires Take(first, 1) != Take(second, 1)
    ensures var c := Step(limit, b, Unknown(name, Quoted(first), false));
            var d := Step(limit, c, Unknown(name, Quoted(second), false));
            !d.panicking && d.envs == b.envs[n := Text(name + "=" + first)][n + 1 := Text(name + "=" + second)]
  {
    var e, f, m := name + "=" + first, name + "=" + second, |name| + 2;
    NoDot(e);
    NoDot(f);
    forall i | 0 <= i < n
      ensures !SamePrefix(e, b.envs[i].text, m) && !SamePrefix(f, b.envs[i].text, m)
    {
      OtherNameDiffers(name, first, b.envs[i].text);
      OtherNameDiffers(name, second, b.envs[i].text);
    }
    FirstForAt(b.envs, e, m, n);
    var c := Step(limit, b, Unknown(name, Quoted(first), false));
    assert c.envs == b.envs[n := Text(e)] && !c.panicking;
    QuotedFindsNameAndInitial(name, second, first);
    FirstForAt(c.envs, f, m, n + 1);
  }

  /** An entry with another name is never found, quoted or not. */
  lemma OtherNameDiffers(name: string, text: string, entry: string)
    requires '=' !in name && '=' in entry && KeyOf(entry) != name + "="
    ensures !SamePrefix(name + "=" + text, entry, |name| + 2)
  {
    var s, n := name + "=" + text, |name| + 1;
    PlainFindsName(name, text, entry);
    assert Take(Take(s, n + 1), n) == Take(s, n);
    assert Take(Take(entry, n + 1), n) == Take(entry, n);
  }
}
