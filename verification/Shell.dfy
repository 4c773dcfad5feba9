/** The line reader and tokeniser of project 0/simple_shell.c. */
module Shell {
  import opened Memory
  import Arithmetic

  // ---- Strings in memory ----

  /** The C string that starts a piece of memory: everything before the first NUL. */
  function CString(s: seq<char>): seq<char> {
    if s == [] || s[0] == NUL then [] else [s[0]] + CString(s[1..])
  }

  lemma {:induction false} CStringOfPrefix(s: seq<char>, t: seq<char>)
    ensures CString(s + [NUL] + t) == CString(s)
  {
    if s == [] {
      assert (s + [NUL] + t)[0] == NUL;
    } else {
      assert (s + [NUL] + t)[1..] == s[1..] + [NUL] + t;
      CStringOfPrefix(s[1..], t);
    }
  }

  lemma {:induction false} CStringIsPrefix(s: seq<char>)
    ensures CString(s) <= s
  {
    if s == [] || s[0] == NUL {
    } else {
      CStringIsPrefix(s[1..]);
    }
  }

  // ---- Words ----

  /** The first position from i on, up to z, that holds no space. */
  function SkipTo(m: seq<char>, i: nat, z: nat): (b: nat)
    requires i <= z <= |m|
    ensures i <= b <= z
    decreases z - i
  {
    if i == z || m[i] != ' ' then i else SkipTo(m, i + 1, z)
  }

  /** The first position from i on, up to z, that holds a space, or z. */
  function EndOf(m: seq<char>, i: nat, z: nat): (e: nat)
    requires i <= z <= |m|
    ensures i <= e <= z
    decreases z - i
  {
    if i == z || m[i] == ' ' then i else EndOf(m, i + 1, z)
  }

  lemma {:induction false} SkipStops(m: seq<char>, i: nat, z: nat)
    requires i <= z <= |m|
    ensures forall k :: i <= k < SkipTo(m, i, z) ==> m[k] == ' '
    ensures SkipTo(m, i, z) < z ==> m[SkipTo(m, i, z)] != ' '
    decreases z - i
  {
    if i == z || m[i] != ' ' {
    } else {
      SkipStops(m, i + 1, z);
    }
  }

  lemma {:induction false} EndStops(m: seq<char>, i: nat, z: nat)
    requires i <= z <= |m|
    ensures forall k :: i <= k < EndOf(m, i, z) ==> m[k] != ' '
    ensures EndOf(m, i, z) < z ==> m[EndOf(m, i, z)] == ' '
    ensures i < z && m[i] != ' ' ==> EndOf(m, i, z) > i
    decreases z - i
  {
    if i == z || m[i] == ' ' {
    } else {
      EndStops(m, i + 1, z);
    }
  }

  /** Where the search for the next word goes on after a word that ends at e. */
  function Onward(e: nat, z: nat): nat {
    if e == z then z else e + 1
  }

  /** The words between positions i and z, split at spaces. */
  function TokensFrom(m: seq<char>, i: nat, z: nat): seq<seq<char>>
    requires i <= z <= |m|
    decreases z - i
  {
    var b := SkipTo(m, i, z);
    if b == z then []
    else
      var e := EndOf(m, b, z);
      EndStops(m, b, z);
      SkipStops(m, i, z);
      [m[b..e]] + TokensFrom(m, Onward(e, z), z)
  }

  /** The words of a line. */
  function Tokens(line: seq<char>): seq<seq<char>> {
    TokensFrom(line, 0, |line|)
  }

  /** The stretch from i to z lies in t shifted by d. */
  ghost predicate Shifted(m: seq<char>, i: nat, z: nat, t: seq<char>, d: int) {
    && i <= z <= |m| && 0 <= i + d && z + d <= |t|
    && forall k :: i <= k < z ==> m[k] == t[k + d]
  }

  lemma {:induction false} SameScan(m: seq<char>, i: nat, z: nat, t: seq<char>, d: int)
    requires Shifted(m, i, z, t, d)
    ensures SkipTo(m, i, z) + d == SkipTo(t, i + d, z + d)
    ensures EndOf(m, i, z) + d == EndOf(t, i + d, z + d)
    decreases z - i
  {
    if i == z {
    } else {
      SameScan(m, i + 1, z, t, d);
    }
  }

  /** The words from i on are w and then the words from n on. */
  ghost predicate Starts(m: seq<char>, i: nat, z: nat, w: seq<char>, n: nat)
    requires i <= z <= |m| && n <= z
  {
    TokensFrom(m, i, z) == [w] + TokensFrom(m, n, z)
  }

  /** The first word and the words behind it. */
  lemma FirstOf(m: seq<char>, i: nat, z: nat)
    requires i <= z <= |m|
    ensures var b, words := SkipTo(m, i, z), TokensFrom(m, i, z);
            && (b == z ==> words == [])
            && (b < z ==>
                  var e := EndOf(m, b, z);
                  b < e && Starts(m, i, z, m[b..e], Onward(e, z)))
  {
    SkipStops(m, i, z);
    EndStops(m, SkipTo(m, i, z), z);
  }

  lemma SameBounds(m: seq<char>, i: nat, z: nat, t: seq<char>, d: int)
    requires Shifted(m, i, z, t, d)
    ensures var b := SkipTo(m, i, z);
            var e := EndOf(m, b, z);
            var c := SkipTo(t, i + d, z + d);
            var f := EndOf(t, c, z + d);
            c == b + d && f == e + d && Onward(f, z + d) == Onward(e, z) + d && m[b..e] == t[c..f]
  {
    SameScan(m, i, z, t, d);
    SameScan(m, SkipTo(m, i, z), z, t, d);
  }

  lemma StartsWith(m: seq<char>, i: nat, z: nat, b: nat, e: nat, n: nat)
    requires i <= z <= |m| && b == SkipTo(m, i, z) < z && e == EndOf(m, b, z) && n == Onward(e, z)
    ensures i < n <= z && Starts(m, i, z, m[b..e], n)
  {
    FirstOf(m, i, z);
  }

  /** The first words are the same, and what follows them starts at corresponding places. */
  lemma SameFirst(m: seq<char>, i: nat, z: nat, t: seq<char>, d: int) returns (w: seq<char>, n: nat)
    requires Shifted(m, i, z, t, d) && SkipTo(m, i, z) < z
    ensures i < n <= z && Starts(m, i, z, w, n) && Starts(t, i + d, z + d, w, n + d)
  {
    var b := SkipTo(m, i, z);
    var e := EndOf(m, b, z);
    SameBounds(m, i, z, t, d);
    w, n := m[b..e], Onward(e, z);
    StartsWith(m, i, z, b, e, n);
    StartsWith(t, i + d, z + d, b + d, e + d, n + d);
  }

  /** Equal stretches of memory have equal words, wherever they lie. */
  lemma {:induction false} SameTokens(m: seq<char>, i: nat, z: nat, t: seq<char>, d: int)
    requires Shifted(m, i, z, t, d)
    ensures TokensFrom(m, i, z) == TokensFrom(t, i + d, z + d)
    decreases z - i
  {
    if SkipTo(m, i, z) < z {
      var w, n := SameFirst(m, i, z, t, d);
      SameTokens(m, n, z, t, d);
    } else {
      SameScan(m, i, z, t, d);
    }
  }

  predicate IsWord(w: seq<char>) {
    w != [] && ' ' !in w
  }

  lemma {:induction false} TokensAreWords(m: seq<char>, i: nat, z: nat)
    requires i <= z <= |m|
    ensures forall w :: w in TokensFrom(m, i, z) ==> IsWord(w)
    decreases z - i
  {
    var b := SkipTo(m, i, z);
    SkipStops(m, i, z);
    if b == z {
    } else {
      EndStops(m, b, z);
      TokensAreWords(m, Onward(EndOf(m, b, z), z), z);
    }
  }

  /** The tokens need at most half the line, rounded up. */
  lemma {:induction false} TokensFit(m: seq<char>, i: nat, z: nat)
    requires i <= z <= |m|
    ensures 2 * |TokensFrom(m, i, z)| <= z - i + 1
    decreases z - i
  {
    var b := SkipTo(m, i, z);
    SkipStops(m, i, z);
    if b == z {
    } else {
      EndStops(m, b, z);
      TokensFit(m, Onward(EndOf(m, b, z), z), z);
    }
  }

  function Flatten(words: seq<seq<char>>): seq<char> {
    if words == [] then [] else words[0] + Flatten(words[1..])
  }

  /** The characters between i and z that are not spaces. */
  function Letters(m: seq<char>, i: nat, z: nat): seq<char>
    requires i <= z <= |m|
    decreases z - i
  {
    if i == z then [] else (if m[i] == ' ' then [] else [m[i]]) + Letters(m, i + 1, z)
  }

  lemma {:induction false} LettersSkip(m: seq<char>, i: nat, z: nat)
    requires i <= z <= |m|
    ensures Letters(m, i, z) == Letters(m, SkipTo(m, i, z), z)
    decreases z - i
  {
    if i == z || m[i] != ' ' {
    } else {
      LettersSkip(m, i + 1, z);
    }
  }

  lemma {:induction false} LettersOfWord(m: seq<char>, i: nat, z: nat)
    requires i <= z <= |m|
    ensures Letters(m, i, z) == m[i..EndOf(m, i, z)] + Letters(m, Onward(EndOf(m, i, z), z), z)
    decreases z - i
  {
    if i == z || m[i] == ' ' {
    } else {
      LettersOfWord(m, i + 1, z);
      var e := EndOf(m, i, z);
      assert m[i..e] == [m[i]] + m[i + 1..e];
    }
  }

  /** Tokenising drops spaces and nothing else. */
  lemma {:induction false} TokensKeepText(m: seq<char>, i: nat, z: nat)
    requires i <= z <= |m|
    ensures Flatten(TokensFrom(m, i, z)) == Letters(m, i, z)
    decreases z - i
  {
    var b := SkipTo(m, i, z);
    SkipStops(m, i, z);
    LettersSkip(m, i, z);
    if b == z {
    } else {
      EndStops(m, b, z);
      var e := EndOf(m, b, z);
      LettersOfWord(m, b, z);
      TokensKeepText(m, Onward(e, z), z);
      assert TokensFrom(m, i, z)[1..] == TokensFrom(m, Onward(e, z), z);
    }
  }

  function Join(words: seq<seq<char>>): seq<char> {
    if words == [] then [] else if |words| == 1 then words[0] else words[0] + [' '] + Join(words[1..])
  }

  lemma {:induction false} EndOfWord(m: seq<char>, i: nat, e: nat, z: nat)
    requires i <= e <= z <= |m|
    requires forall k :: i <= k < e ==> m[k] != ' '
    requires e < z ==> m[e] == ' '
    ensures EndOf(m, i, z) == e
    decreases e - i
  {
    if i == e {
    } else {
      EndOfWord(m, i + 1, e, z);
    }
  }

  lemma FirstWord(line: seq<char>, w: seq<char>)
    requires IsWord(w) && w <= line && (|w| < |line| ==> line[|w|] == ' ')
    ensures Tokens(line) == [w] + TokensFrom(line, Onward(|w|, |line|), |line|)
  {
    assert forall k :: 0 <= k < |w| ==> line[k] == w[k] && w[k] in w;
    EndOfWord(line, 0, |w|, |line|);
    assert SkipTo(line, 0, |line|) == 0;
    assert line[0..|w|] == w;
  }

  /** Tokenising words joined by single spaces gives the words back. */
  lemma {:induction false} TokensOfJoin(words: seq<seq<char>>)
    requires forall i :: 0 <= i < |words| ==> IsWord(words[i])
    ensures Tokens(Join(words)) == words
  {
    if words == [] {
    } else if |words| == 1 {
      FirstWord(words[0], words[0]);
    } else {
      var w, rest := words[0], Join(words[1..]);
      var line := w + [' '] + rest;
      FirstWord(line, w);
      SameTokens(line, |w| + 1, |line|, rest, -(|w| + 1));
      TokensOfJoin(words[1..]);
      assert words == [w] + words[1..];
    }
  }

  // ---- strtok and process ----

  /** The zero-terminated word w lies at position p of the memory. */
  ghost predicate WordAt(m: seq<char>, p: int, w: seq<char>) {
    0 <= p && p + |w| < |m| && m[p..p + |w|] == w && m[p + |w|] == NUL && NUL !in w
  }

  /** The string that starts at `from` ends at z. */
  ghost predicate StringTo(m: seq<char>, from: nat, z: nat) {
    from <= z < |m| && m[z] == NUL && forall k :: from <= k < z ==> m[k] != NUL
  }

  /** The word at p lies in the part of the line that strtok has left behind. */
  ghost predicate Settled(m: seq<char>, p: int, w: seq<char>, save: nat, z: nat) {
    WordAt(m, p, w) && (p + |w| < save || (p + |w| == z && save == z))
  }

  lemma SettledStays(m: seq<char>, t: seq<char>, p: int, w: seq<char>, save: nat, later: nat, z: nat)
    requires Settled(m, p, w, save, z) && |t| == |m| && save <= later <= z < |m| && t[z] == m[z]
    requires forall k :: 0 <= k < save ==> t[k] == m[k]
    ensures Settled(t, p, w, later, z)
  {
    assert t[p..p + |w|] == m[p..p + |w|];
  }

  /** What strtok does to a string from `from` to z: where the token starts (-1 for none), where the next
      call goes on, and the memory afterwards. */
  datatype Cut = Cut(start: int, save: nat, memory: seq<char>)

  function CutToken(m: seq<char>, from: nat, z: nat): Cut
    requires from <= z < |m|
  {
    var b := SkipTo(m, from, z);
    if b == z then Cut(-1, z, m)
    else
      var e := EndOf(m, b, z);
      Cut(b, Onward(e, z), if e == z then m else m[e := NUL])
  }

  /** strtok writes at most one NUL, before the place where the next call goes on. */
  lemma CutsOneCell(m: seq<char>, from: nat, z: nat)
    requires StringTo(m, from, z)
    ensures var c := CutToken(m, from, z);
            && |c.memory| == |m| && from <= c.save <= z && StringTo(c.memory, c.save, z)
            && (forall k :: 0 <= k < |m| && (k < from || k >= c.save) ==> c.memory[k] == m[k])
  {
  }

  /** The word that strtok cuts off is settled. */
  lemma CutSettles(m: seq<char>, from: nat, z: nat)
    requires StringTo(m, from, z) && SkipTo(m, from, z) < z
    ensures var b := SkipTo(m, from, z);
            var w, c := m[b..EndOf(m, b, z)], CutToken(m, from, z);
            c.start >= 0 && Settled(c.memory, c.start, w, c.save, z)
  {
    var c, b := CutToken(m, from, z), SkipTo(m, from, z);
    assert c.memory[b..EndOf(m, b, z)] == m[b..EndOf(m, b, z)];
  }

  /** strtok cuts off the first word and leaves the remaining words for the next call. */
  lemma CutsFirstToken(m: seq<char>, from: nat, z: nat)
    requires StringTo(m, from, z)
    ensures var c, words := CutToken(m, from, z), TokensFrom(m, from, z);
            && |c.memory| == |m| && from <= c.save <= z && StringTo(c.memory, c.save, z)
            && (forall k :: 0 <= k < from ==> c.memory[k] == m[k])
            && (c.start == -1 <==> words == [])
            && (words != [] ==>
                  && Settled(c.memory, c.start, words[0], c.save, z)
                  && TokensFrom(c.memory, c.save, z) == words[1..])
  {
    var c, b := CutToken(m, from, z), SkipTo(m, from, z);
    CutsOneCell(m, from, z);
    FirstOf(m, from, z);
    if b < z {
      CutSettles(m, from, z);
      SameTokens(m, c.save, z, c.memory, 0);
    }
  }

  method SkipSpaces(a: array<char>, from: nat, ghost z: nat) returns (i: nat)
    requires StringTo(a[..], from, z)
    ensures i == SkipTo(a[..], from, z)
  {
    i := from;
    while a[i] == ' '
      invariant from <= i <= z && SkipTo(a[..], i, z) == SkipTo(a[..], from, z)
      decreases z - i
    {
      i := i + 1;
    }
  }

  method ScanWord(a: array<char>, from: nat, ghost z: nat) returns (i: nat)
    requires StringTo(a[..], from, z)
    ensures i == EndOf(a[..], from, z)
  {
    i := from;
    while a[i] != ' ' && a[i] != NUL
      invariant from <= i <= z && EndOf(a[..], i, z) == EndOf(a[..], from, z)
      decreases z - i
    {
      i := i + 1;
    }
  }

  /** strtok (section 7.24.5.8 of C11) with the delimiter " ". */
  method Strtok(a: array<char>, from: nat, ghost z: nat) returns (start: int, save: nat)
    requires StringTo(a[..], from, z)
    modifies a
    ensures Cut(start, save, a[..]) == CutToken(old(a[..]), from, z)
  {
    var i := SkipSpaces(a, from, z);
    if a[i] == NUL {
      return -1, i;
    }
    start := i;
    i := ScanWord(a, start, z);
    if a[i] == NUL {
      save := i;
    } else {
      a[i] := NUL;
      save := i + 1;
    }
  }

  /** command[0..n] hold the words of the line as strings in memory, and command[n] the null pointer. */
  ghost predicate Listed(m: seq<char>, command: seq<int>, words: seq<seq<char>>) {
    && |words| < |command|
    && (forall k :: 0 <= k < |words| ==> WordAt(m, command[k], words[k]))
    && command[|words|] == -1
  }

  /** After `tokens` calls of strtok. */
  ghost predicate Progress(m: seq<char>, command: seq<int>, words: seq<seq<char>>, tokens: nat, save: nat, z: nat) {
    && tokens <= |words| + 1 <= |command|
    && StringTo(m, save, z)
    && (tokens <= |words| ==> TokensFrom(m, save, z) == words[tokens..])
    && (tokens > 0 ==> (command[tokens - 1] == -1 <==> tokens == |words| + 1))
    && (forall k :: 0 <= k < tokens && k < |words| ==> Settled(m, command[k], words[k], save, z))
  }

  lemma NextToken(m: seq<char>, command: seq<int>, words: seq<seq<char>>, tokens: nat, save: nat, z: nat)
    requires Progress(m, command, words, tokens, save, z) && tokens <= |words|
    ensures var c := CutToken(m, save, z);
            Progress(c.memory, command[tokens := c.start], words, tokens + 1, c.save, z)
  {
    var c := CutToken(m, save, z);
    CutsFirstToken(m, save, z);
    CutsOneCell(m, save, z);
    forall k | 0 <= k < tokens
      ensures Settled(c.memory, command[k], words[k], c.save, z)
    {
      SettledStays(m, c.memory, command[k], words[k], save, c.save, z);
    }
  }

  /** process: cuts the line in place and fills the argument array, closing null pointer included. */
  method Process(input: array<char>, command: array<int>, ghost z: nat) returns (tokens: nat)
    requires StringTo(input[..], 0, z) && z < command.Length
    modifies input, command
    ensures Listed(input[..], command[..], TokensFrom(old(input[..]), 0, z))
    ensures tokens == |TokensFrom(old(input[..]), 0, z)| + 1
  {
    ghost var words := TokensFrom(input[..], 0, z);
    TokensFit(input[..], 0, z);
    ghost var m, was, from := input[..], command[..], 0;
    NextToken(m, was, words, 0, 0, z);
    var start, save := Strtok(input, 0, z);
    command[0] := start;
    assert command[..] == was[0 := start];
    tokens := 1;
    while command[tokens - 1] != -1
      invariant 1 <= tokens && Progress(input[..], command[..], words, tokens, save, z)
      decreases |words| + 1 - tokens
    {
      m, was, from := input[..], command[..], save;
      assert was[tokens - 1] != -1;
      NextToken(m, was, words, tokens, from, z);
      start, save := Strtok(input, save, z);
      command[tokens] := start;
      assert command[..] == was[tokens := start];
      tokens := tokens + 1;
    }
    assert command[..][tokens - 1] == -1;
  }

  // ---- The read loop of main ----

  /** A finished line, the built-in exit, or a failed realloc. */
  datatype Outcome = Line | ExitCommand | NoMemory

  /** The characters up to the first newline or the end of the input. */
  function LineOf(stream: seq<char>): seq<char> {
    if stream == [] || stream[0] == '\n' then [] else [stream[0]] + LineOf(stream[1..])
  }

  /** What is left of the input behind that line and its newline. */
  function Behind(stream: seq<char>): (rest: seq<char>)
    ensures |rest| <= |stream| && (stream != [] ==> |rest| < |stream|)
  {
    if stream == [] then [] else if stream[0] == '\n' then stream[1..] else Behind(stream[1..])
  }

  /** The input in front of round n. */
  function InputAt(stream: seq<char>, n: nat): seq<char> {
    if n == 0 then stream else Behind(InputAt(stream, n - 1))
  }

  /** The buffer size after n doublings. */
  function Capacity(n: nat): (c: nat)
    ensures c >= 1024
  {
    if n == 0 then 1024 else 2 * Capacity(n - 1)
  }

  /** The sizes are 1024, 2048, 4096, and so on. */
  lemma {:induction false} CapacityExactly(n: nat)
    ensures Capacity(n) == 1024 * Arithmetic.Pow2(n)
  {
    if n == 0 {
    } else {
      CapacityExactly(n - 1);
    }
  }

  lemma {:induction false} CapacityGrows(m: nat, n: nat)
    requires m <= n
    ensures Capacity(m) <= Capacity(n)
    decreases n
  {
    if m == n {
    } else {
      CapacityGrows(m, n - 1);
    }
  }

  lemma {:induction false} LineStops(stream: seq<char>)
    ensures LineOf(stream) <= stream
    ensures forall k :: 0 <= k < |LineOf(stream)| ==> stream[k] != '\n'
    ensures |LineOf(stream)| < |stream| ==> stream[|LineOf(stream)|] == '\n'
  {
    if stream == [] || stream[0] == '\n' {
    } else {
      LineStops(stream[1..]);
    }
  }

  lemma {:induction false} BehindStarts(stream: seq<char>)
    ensures |LineOf(stream)| <= |stream|
    ensures Behind(stream) == if |LineOf(stream)| < |stream| then stream[|LineOf(stream)| + 1..] else []
  {
    if stream == [] || stream[0] == '\n' {
    } else {
      BehindStarts(stream[1..]);
    }
  }

  /** strcmp with "exit" after k characters have been read succeeds first when the line so far is "exit". */
  lemma ExitTest(line: seq<char>, k: nat)
    requires k <= |line| && (k > 4 ==> line[..4] != "exit")
    ensures CString(line[..k]) == "exit" <==> k == 4 && line[..4] == "exit"
  {
    CStringIsPrefix(line[..k]);
    if CString(line[..k]) == "exit" {
      assert k >= 4 && line[..k][..4] == line[..4];
    }
    if k == 4 && line[..4] == "exit" {
      assert CString("exit") == "exit" by {
        assert "exit"[1..] == "xit" && "xit"[1..] == "it" && "it"[1..] == "t";
        assert CString("t") == "t";
        assert CString("it") == "it";
        assert CString("xit") == "xit";
      }
    }
  }

  /** realloc of the line: the old contents and anything behind them. */
  method GrowLine(input: array<char>, buffer: nat) returns (bigger: array<char>)
    requires input.Length <= buffer
    ensures fresh(bigger) && bigger.Length == buffer && bigger[..input.Length] == input[..]
  {
    bigger := new char[buffer];
    forall i | 0 <= i < input.Length {
      bigger[i] := input[i];
    }
  }

  /** realloc of the arguments and the null pointers behind them. */
  method GrowArguments(command: array<int>, buffer: nat) returns (bigger: array<int>)
    requires command.Length <= buffer
    ensures fresh(bigger) && bigger.Length == buffer && bigger[..command.Length] == command[..]
    ensures forall i :: command.Length <= i < buffer ==> bigger[i] == -1
  {
    bigger := new int[buffer](_ => -1);
    forall i | 0 <= i < command.Length {
      bigger[i] := command[i];
    }
  }

  /** Every argument is a null pointer. */
  ghost predicate NoArguments(command: array<int>)
    reads command
  {
    forall i :: 0 <= i < command.Length ==> command[i] == -1
  }

  /** Doubles both buffers when `count` characters fill the line; ok is false when memory runs out. The
      argument array is all null pointers before and after. */
  method EnsureRoom(input: array<char>, command: array<int>, count: nat, doublings: nat, grants: nat)
    returns (ok: bool, line: array<char>, arguments: array<int>, done: nat)
    requires input.Length == command.Length == Capacity(doublings) && count <= input.Length && doublings <= grants
    requires NoArguments(command)
    ensures ok <==> count < input.Length || doublings < grants
    ensures !ok ==> line == input && arguments == command && done == doublings
    ensures ok ==>
      && (line == input || fresh(line)) && (arguments == command || fresh(arguments))
      && done <= grants && line.Length == arguments.Length == Capacity(done) && count < line.Length
      && line[..count] == input[..count]
    ensures NoArguments(arguments)
  {
    ok, line, arguments, done := true, input, command, doublings;
    if count == input.Length {
      if doublings == grants {
        ok := false;
        return;
      }
      var buffer := 2 * input.Length;
      line := GrowLine(input, buffer);
      arguments := GrowArguments(command, buffer);
      assert forall i :: 0 <= i < command.Length ==> arguments[i] == arguments[..command.Length][i];
      done := doublings + 1;
    }
  }

  /** strcmp(input, "exit") == 0 after k characters of the line. */
  method IsExit(input: array<char>, k: nat, ghost line: seq<char>) returns (exits: bool)
    requires k <= |line| && k < input.Length && input[..k] == line[..k] && input[k] == NUL
    requires k > 4 ==> line[..4] != "exit"
    ensures exits <==> k == 4 && line[..4] == "exit"
  {
    assert input[..] == line[..k] + [NUL] + input[k + 1..];
    CStringOfPrefix(line[..k], input[k + 1..]);
    ExitTest(line, k);
    exits := CString(input[..]) == "exit";
  }

  /** Reads one line of any length; `grants` is how many doublings the memory allows. */
  method ReadLine(stream: seq<char>, grants: nat)
    returns (outcome: Outcome, input: array<char>, command: array<int>, count: nat, rest: seq<char>)
    ensures fresh(input) && fresh(command) && input.Length == command.Length && NoArguments(command)
    ensures outcome == if "exit" <= LineOf(stream) then ExitCommand
                       else if |LineOf(stream)| < Capacity(grants) then Line
                       else NoMemory
    ensures outcome.Line? ==>
              count == |LineOf(stream)| < input.Length && input[..count] == LineOf(stream) && input[count] == NUL
              && rest == Behind(stream)
  {
    ghost var line := LineOf(stream);
    LineStops(stream);
    input := new char[1024](_ => NUL);
    command := new int[1024](_ => -1);
    count := 0;
    var doublings: nat := 0;
    while count < |stream| && stream[count] != '\n'
      invariant fresh(input) && fresh(command) && input.Length == command.Length == Capacity(doublings)
      invariant count <= |line| && count < input.Length && doublings <= grants && NoArguments(command)
      invariant input[..count] == line[..count] && input[count] == NUL
      invariant count >= 4 ==> line[..4] != "exit"
    {
      input[count] := stream[count];
      count := count + 1;
      assert input[..count] == line[..count];
      var ok;
      ok, input, command, doublings := EnsureRoom(input, command, count, doublings, grants);
      if !ok {
        CapacityGrows(0, grants);
        return NoMemory, input, command, count, [];
      }
      input[count] := NUL;
      assert input[..count] == line[..count];
      var exits := IsExit(input, count, line);
      if exits {
        return ExitCommand, input, command, count, [];
      }
    }
    CapacityGrows(doublings, grants);
    assert line[..count] == line;
    BehindStarts(stream);
    outcome, rest := Line, if count < |stream| then stream[count + 1..] else [];
  }

  /** One round of main up to run: the arguments are the words of the line, up to its first NUL if it has
      one, closed by a null pointer. */
  method ReadCommand(stream: seq<char>, grants: nat)
    returns (outcome: Outcome, input: array<char>, command: array<int>, rest: seq<char>)
    ensures outcome == if "exit" <= LineOf(stream) then ExitCommand
                       else if |LineOf(stream)| < Capacity(grants) then Line
                       else NoMemory
    ensures outcome.Line? ==> Listed(input[..], command[..], Tokens(CString(LineOf(stream)))) && rest == Behind(stream)
  {
    var count;
    outcome, input, command, count, rest := ReadLine(stream, grants);
    if outcome == Line {
      ghost var line := LineOf(stream);
      ghost var text := CString(line);
      StoredTokens(input[..], line, count);
      var tokens := Process(input, command, |text|);
    }
  }

  // ---- The endless loop of main ----

  /** Round n gets as far as run. */
  predicate Runs(stream: seq<char>, grants: nat, n: nat) {
    var line := LineOf(InputAt(stream, n));
    !("exit" <= line) && |line| < Capacity(grants)
  }

  /** The arguments of round n. */
  function ArgumentsAt(stream: seq<char>, n: nat): seq<seq<char>> {
    Tokens(CString(LineOf(InputAt(stream, n))))
  }

  /** The first rounds of main: each runs the words of its own line, until a line starts with "exit" or does not
      fit into memory. */
  method Session(stream: seq<char>, grants: nat, rounds: nat)
    returns (done: nat, outcome: Outcome, ghost executed: seq<seq<seq<char>>>)
    ensures done <= rounds && |executed| == done
    ensures forall k :: 0 <= k < done ==> Runs(stream, grants, k) && executed[k] == ArgumentsAt(stream, k)
    ensures done == rounds ==> outcome == Line
    ensures done < rounds ==>
              !Runs(stream, grants, done)
              && outcome == if "exit" <= LineOf(InputAt(stream, done)) then ExitCommand else NoMemory
  {
    var input := stream;
    done, outcome, executed := 0, Line, [];
    while done < rounds
      invariant done <= rounds && |executed| == done && outcome == Line
      invariant input == InputAt(stream, done)
      invariant forall k :: 0 <= k < done ==> Runs(stream, grants, k) && executed[k] == ArgumentsAt(stream, k)
    {
      var line, command, rest;
      outcome, line, command, rest := ReadCommand(input, grants);
      if outcome != Line {
        return;
      }
      assert Listed(line[..], command[..], ArgumentsAt(stream, done));
      executed := executed + [ArgumentsAt(stream, done)];
      input := rest;
      done := done + 1;
    }
  }

  lemma {:induction false} InputRunsOut(stream: seq<char>, n: nat)
    ensures |InputAt(stream, n)| <= if n <= |stream| then |stream| - n else 0
  {
    if n == 0 {
    } else {
      InputRunsOut(stream, n - 1);
    }
  }

  /** The loop of main ends exactly when one of the lines of the input stops it; behind the end of the input every
      round runs an empty line, for ever. */
  lemma LoopEndsExactly(stream: seq<char>, grants: nat)
    ensures (exists n: nat :: !Runs(stream, grants, n)) <==> (exists n: nat :: n < |stream| && !Runs(stream, grants, n))
    ensures forall n: nat :: n >= |stream| ==> Runs(stream, grants, n) && ArgumentsAt(stream, n) == []
  {
    forall n: nat | n >= |stream|
      ensures Runs(stream, grants, n) && ArgumentsAt(stream, n) == []
    {
      InputRunsOut(stream, n);
      assert InputAt(stream, n) == [];
    }
  }

  lemma StoredTokens(m: seq<char>, line: seq<char>, count: nat)
    requires count == |line| < |m| && m[..count] == line && m[count] == NUL
    ensures var text := CString(line);
            StringTo(m, 0, |text|) && |text| <= count && TokensFrom(m, 0, |text|) == Tokens(text)
  {
    StoredText(m, line, count);
    PrefixTokens(m, CString(line));
  }

  lemma StoredText(m: seq<char>, line: seq<char>, count: nat)
    requires count == |line| < |m| && m[..count] == line && m[count] == NUL
    ensures var text := CString(line);
            StringTo(m, 0, |text|) && |text| <= count && text == m[..|text|]
  {
    assert m == line + [NUL] + m[count + 1..];
    FirstNul(line, m[count + 1..]);
  }

  lemma PrefixTokens(m: seq<char>, text: seq<char>)
    requires |text| <= |m| && text == m[..|text|]
    ensures TokensFrom(m, 0, |text|) == Tokens(text)
  {
    SameTokens(m, 0, |text|, text, 0);
  }

  lemma {:induction false} FirstNul(line: seq<char>, rest: seq<char>)
    ensures var m := line + [NUL] + rest;
            && StringTo(m, 0, |CString(line)|) && |CString(line)| <= |line|
            && CString(line) == m[..|CString(line)|]
  {
    if line == [] || line[0] == NUL {
    } else {
      FirstNul(line[1..], rest);
      var m, n := line + [NUL] + rest, line[1..] + [NUL] + rest;
      assert m == [line[0]] + n;
      assert m[..|CString(line)|] == [line[0]] + n[..|CString(line[1..])|];
    }
  }
}
