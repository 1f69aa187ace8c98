/** The shell's line editor and tokeniser. */
module Shell {

  const NUL: char := 0 as char
  const BACKSPACE: char := 8 as char

  // ---------- editing ----------

  /** One key on the line typed so far. */
  function Edit(line: string, key: char): (r: string)
  {
    if key == BACKSPACE then (if line == "" then "" else line[..|line| - 1]) else line + [key]
  }

  /** The line that a sequence of keys leaves. */
  function Typed(line: string, keys: string): (r: string)
    decreases |keys|
  {
    if keys == "" then line else Typed(Edit(line, keys[0]), keys[1..])
  }

  /** The commands that a session hands over: at each newline, the line typed since the last
      one; the command `exit` ends the session. Key 0 is no key. */
  function Commands(line: string, keys: string): (commands: seq<string>)
    decreases |keys|
  {
    if keys == "" then []
    else if keys[0] == NUL then Commands(line, keys[1..])
    else
      var edited := Edit(line, keys[0]);
      if keys[0] != '\n' then Commands(edited, keys[1..])
      else [edited] + (if IsExit(edited) then [] else Commands("", keys[1..]))
  }

  /** No key is lost to a full buffer, there is room for each command's terminator, and the
      tokeniser's table holds each command. */
  predicate Fits(cap: nat, line: string, keys: string)
    decreases |keys|
  {
    if keys == "" then true
    else if keys[0] == NUL then Fits(cap, line, keys[1..])
    else
      var edited := Edit(line, keys[0]);
      if keys[0] != '\n' then |edited| <= cap && Fits(cap, edited, keys[1..])
      else |edited| < cap && InTable(edited) && (IsExit(edited) || Fits(cap, "", keys[1..]))
  }

  lemma {:induction false} TypedAppend(line: string, a: string, b: string)
    ensures Typed(line, a + b) == Typed(Typed(line, a), b)
    decreases |a|
  {
    if a == "" {
      assert a + b == b;
    } else {
      assert (a + b)[1..] == a[1..] + b;
      TypedAppend(Edit(line, a[0]), a[1..], b);
    }
  }

  /** Keys other than backspace are appended. */
  lemma {:induction false} TypedPlain(line: string, keys: string)
    requires 8 as char !in keys
    ensures Typed(line, keys) == line + keys
    decreases |keys|
  {
    if keys == "" {
      assert line + keys == line;
    } else {
      TypedPlain(line + [keys[0]], keys[1..]);
      assert Edit(line, keys[0]) == line + [keys[0]];
      assert line + [keys[0]] + keys[1..] == line + keys;
    }
  }

  /** A backspace cancels the character typed before it, wherever the two stand among the
      keys; on an empty line it does nothing. */
  lemma BackspaceCancels(line: string, before: string, c: char, after: string)
    requires c != 8 as char
    ensures Typed(line, before + [c, 8 as char] + after) == Typed(line, before + after)
    ensures Typed("", [8 as char]) == ""
  {
    var pair: string, typed := [c, 8 as char], Typed(line, before);
    TypedAppend(line, before + pair, after);
    TypedAppend(line, before, pair);
    TypedAppend(line, before, after);
    assert pair[1..] == [8 as char] && pair[1..][1..] == "";
    assert Typed(typed, pair) == Typed(Edit(typed, c), pair[1..]) == Edit(Edit(typed, c), 8 as char);
    assert Edit(Edit(typed, c), 8 as char) == typed;
  }

  /** A session without NUL or newline only edits; the next newline hands over what was
      typed, the newline included. */
  lemma {:induction false} NewlineHandsOver(line: string, keys: string, rest: string)
    requires forall i :: 0 <= i < |keys| ==> keys[i] != NUL && keys[i] != '\n'
    ensures var command := Typed(line, keys) + "\n";
            Commands(line, keys + "\n" + rest) == [command] + (if IsExit(command) then [] else Commands("", rest))
    decreases |keys|
  {
    var all := keys + "\n" + rest;
    if keys == "" {
      assert all[0] == '\n' && all[1..] == rest;
    } else {
      assert all[0] == keys[0] && all[1..] == keys[1..] + "\n" + rest;
      NewlineHandsOver(Edit(line, keys[0]), keys[1..], rest);
    }
  }

  /** Key 0 is no key. */
  lemma NulIgnored(line: string, keys: string)
    ensures Commands(line, [0 as char] + keys) == Commands(line, keys)
  {
    assert ([0 as char] + keys)[1..] == keys;
  }

  /** What one key means for the rest of a session. */
  lemma KeyTurn(cap: nat, line: string, keys: string, i: nat)
    requires i < |keys| && Fits(cap, line, keys[i..])
    ensures var c, edited, commands := keys[i], Edit(line, keys[i]), Commands(line, keys[i..]);
            && (c == NUL ==> commands == Commands(line, keys[i + 1..]) && Fits(cap, line, keys[i + 1..]))
            && (c != NUL ==> |edited| <= cap)
            && (c != NUL && c != '\n' ==>
                  commands == Commands(edited, keys[i + 1..]) && Fits(cap, edited, keys[i + 1..]))
            && (c == '\n' ==> |edited| < cap && InTable(edited))
            && (c == '\n' ==> commands == [edited] + (if IsExit(edited) then [] else Commands("", keys[i + 1..])))
            && (c == '\n' && !IsExit(edited) ==> Fits(cap, "", keys[i + 1..]))
  {
    assert keys[i..][1..] == keys[i + 1..];
    hide InTable, IsExit, Edit;
  }

  lemma HandOver(done: seq<string>, command: string, rest: seq<string>)
    ensures done + ([command] + rest) == done + [command] + rest
  {
  }

  // ---------- tokens ----------

  predicate IsSeparator(c: char) { c == ' ' || c == '\n' }

  /** Where the field in progress starts, after `n` characters. */
  function Start(s: string, n: nat): (i: nat)
    requires n <= |s|
    ensures i <= n
  {
    if n == 0 then 0 else if IsSeparator(s[n - 1]) then n else Start(s, n - 1)
  }

  /** The fields ended within the first `n` characters. */
  function Fields(s: string, n: nat): (fields: seq<string>)
    requires n <= |s|
  {
    if n == 0 then []
    else if IsSeparator(s[n - 1]) then Fields(s, n - 1) + [s[Start(s, n - 1)..n - 1]]
    else Fields(s, n - 1)
  }

  function Separators(s: string, n: nat): (separators: string)
    requires n <= |s|
  {
    if n == 0 then ""
    else if IsSeparator(s[n - 1]) then Separators(s, n - 1) + [s[n - 1]]
    else Separators(s, n - 1)
  }

  /** Fields and separators put back in turn. */
  function Rejoin(fields: seq<string>, separators: string): (s: string)
    requires |fields| == |separators|
  {
    if fields == [] then ""
    else
      Rejoin(fields[..|fields| - 1], separators[..|separators| - 1])
      + fields[|fields| - 1] + [separators[|separators| - 1]]
  }

  lemma RejoinSnoc(fields: seq<string>, separators: string, field: string, c: char)
    requires |fields| == |separators|
    ensures Rejoin(fields + [field], separators + [c]) == Rejoin(fields, separators) + field + [c]
  {
    assert (fields + [field])[..|fields|] == fields && (separators + [c])[..|separators|] == separators;
  }

  lemma PrefixParts(s: string, start: nat, n: nat)
    requires start < n <= |s|
    ensures s[..start] + s[start..n - 1] + [s[n - 1]] == s[..n]
  {
  }

  /** The fields are free of separators, and rejoined they give the text back up to the field
      in progress. */
  lemma {:induction false} FieldsRejoin(s: string, n: nat)
    requires n <= |s|
    ensures |Fields(s, n)| == |Separators(s, n)|
    ensures Rejoin(Fields(s, n), Separators(s, n)) == s[..Start(s, n)]
    ensures ' ' !in s[Start(s, n)..n] && '\n' !in s[Start(s, n)..n]
    ensures forall k :: 0 <= k < |Fields(s, n)| ==> ' ' !in Fields(s, n)[k] && '\n' !in Fields(s, n)[k]
    ensures forall k :: 0 <= k < |Separators(s, n)| ==> Separators(s, n)[k] == ' ' || Separators(s, n)[k] == '\n'
  {
    hide *;
    FieldsGiveBack(s, n);
    FieldsArePlain(s, n);
    SeparatorsSeparate(s, n);
  }

  lemma {:induction false} FieldsGiveBack(s: string, n: nat)
    requires n <= |s|
    ensures |Fields(s, n)| == |Separators(s, n)|
    ensures Rejoin(Fields(s, n), Separators(s, n)) == s[..Start(s, n)]
  {
    if n > 0 {
      FieldsGiveBack(s, n - 1);
      var fields, separators, start := Fields(s, n - 1), Separators(s, n - 1), Start(s, n - 1);
      if IsSeparator(s[n - 1]) {
        RejoinSnoc(fields, separators, s[start..n - 1], s[n - 1]);
        PrefixParts(s, start, n);
        hide Rejoin;
      }
    }
  }

  lemma {:induction false} FieldsArePlain(s: string, n: nat)
    requires n <= |s|
    ensures ' ' !in s[Start(s, n)..n] && '\n' !in s[Start(s, n)..n]
    ensures forall k :: 0 <= k < |Fields(s, n)| ==> ' ' !in Fields(s, n)[k] && '\n' !in Fields(s, n)[k]
  {
    if n > 0 {
      FieldsArePlain(s, n - 1);
      SliceSnoc(s, Start(s, n - 1), n);
    }
  }

  lemma SliceSnoc(s: string, start: nat, n: nat)
    requires start < n <= |s|
    ensures s[start..n] == s[start..n - 1] + [s[n - 1]]
  {
  }

  lemma {:induction false} SeparatorsSeparate(s: string, n: nat)
    requires n <= |s|
    ensures forall k :: 0 <= k < |Separators(s, n)| ==> Separators(s, n)[k] == ' ' || Separators(s, n)[k] == '\n'
  {
    if n > 0 {
      SeparatorsSeparate(s, n - 1);
    }
  }

  /** A command ends in a newline, so nothing is left over: its fields and separators give
      all of it back. */
  lemma CommandRejoins(command: string)
    requires command != "" && command[|command| - 1] == '\n'
    ensures |Fields(command, |command|)| == |Separators(command, |command|)| >= 1
    ensures Rejoin(Fields(command, |command|), Separators(command, |command|)) == command
  {
    FieldsRejoin(command, |command|);
    assert Start(command, |command|) == |command|;
  }

  predicate IsExit(command: string)
  {
    var fields := Fields(command, |command|);
    fields != [] && fields[0] == "exit"
  }

  /** The first field is all that comes before the first separator. */
  lemma {:induction false} FirstField(s: string, n: nat)
    requires n <= |s|
    ensures Fields(s, n) == [] ==> Start(s, n) == 0
    ensures Fields(s, n) != [] ==>
              var p := |Fields(s, n)[0]|;
              p < n && Fields(s, n)[0] == s[..p] && (s[p] == ' ' || s[p] == '\n')
  {
    if n > 0 {
      FirstField(s, n - 1);
    }
  }

  /** The commands that end a session: `exit`, alone or with arguments. */
  lemma ExitExactly(command: string)
    requires command != "" && command[|command| - 1] == '\n'
    ensures IsExit(command) <==>
            |command| >= 5 && command[..4] == "exit" && (command[4] == ' ' || command[4] == '\n')
  {
    CommandRejoins(command);
    FieldsRejoin(command, |command|);
    FirstField(command, |command|);
    hide Fields, Separators, Start, Rejoin;
    var first := Fields(command, |command|)[0];
    if |command| >= 5 && command[..4] == "exit" && (command[4] == ' ' || command[4] == '\n') {
      ShortestPrefix(command, |first|);
    }
  }

  lemma ShortestPrefix(s: string, p: nat)
    requires 5 <= |s| && p < |s| && s[..4] == "exit" && (s[4] == ' ' || s[4] == '\n')
    requires (s[p] == ' ' || s[p] == '\n') && ' ' !in s[..p] && '\n' !in s[..p]
    ensures p == 4
  {
    assert s[..4][0] == 'e' && s[..4][1] == 'x' && s[..4][2] == 'i' && s[..4][3] == 't';
  }

  /** 32 fields of 31 characters and a terminator. */
  predicate InTable(command: string)
  {
    var fields := Fields(command, |command|);
    |fields| <= 32 && forall k :: 0 <= k < |fields| ==> |fields[k]| < 32
  }

  lemma {:induction false} FieldsGrow(s: string, n: nat, m: nat)
    requires n <= m <= |s|
    ensures |Fields(s, n)| <= |Fields(s, m)| && Fields(s, n) == Fields(s, m)[..|Fields(s, n)|]
    decreases m - n
  {
    if n < m {
      FieldsGrow(s, n, m - 1);
    }
  }

  lemma {:induction false} FieldsInside(s: string, n: nat, k: nat)
    requires n <= |s| && k < |Fields(s, n)|
    ensures forall c :: c in Fields(s, n)[k] ==> c in s
  {
    if k < |Fields(s, n - 1)| {
      FieldsInside(s, n - 1, k);
    }
  }

  // ---------- in place ----------

  /** Row `k` of the table holds `field`, terminated. */
  ghost predicate RowIs(argv: array2<char>, k: nat, field: string)
    requires argv.Length0 == 32 && argv.Length1 == 32 && k < 32
    reads argv
  {
    |field| < 32 && (forall j :: 0 <= j < |field| ==> argv[k, j] == field[j]) && argv[k, |field|] == NUL
  }

  class Shell {
    const buffer: array<char>
    var size: nat
    var running: bool
    ghost var commands: seq<string>   // handed to the interpreter so far

    constructor (cap: nat)
      ensures buffer.Length == cap && fresh(buffer) && size == 0 && !running && commands == []
    {
      buffer := new char[cap];
      size, running, commands := 0, false, [];
    }

    ghost predicate Valid()
      reads this
    {
      size <= buffer.Length
    }

    ghost function Line(): string
      requires Valid()
      reads this, buffer
    {
      buffer[..size]
    }

    /** `shell_bufferpush`: a key that does not fit is dropped. */
    method Push(c: char)
      requires Valid()
      modifies this`size, buffer
      ensures Valid() && Line() == if old(size) < buffer.Length then old(Line()) + [c] else old(Line())
    {
      if size < buffer.Length {
        buffer[size] := c;
        size := size + 1;
      }
    }

    /** `shell_bufferpop`. */
    method Pop() returns (c: char)
      requires Valid()
      modifies this`size
      ensures Valid() && Line() == if old(Line()) == "" then "" else old(Line())[..old(size) - 1]
      ensures c == if old(Line()) == "" then NUL else old(Line())[old(size) - 1]
    {
      if size > 0 {
        size := size - 1;
        return buffer[size];
      }
      return NUL;
    }

    /** `shell_bufferread`: the buffer, terminated if there is room. */
    method Read() returns (command: string)
      requires Valid() && size < buffer.Length
      modifies this`size, buffer
      ensures Valid() && command == old(Line())
      ensures command < buffer[..] && buffer[|command|] == NUL
    {
      var n := size;
      Push(NUL);
      command := buffer[..n];
    }

    /** The tokenising loops of `shell_interpreter`. */
    static method Tokenise(command: string) returns (argv: array2<char>, argc: int)
      requires InTable(command)
      ensures fresh(argv) && argv.Length0 == 32 && argv.Length1 == 32
      ensures argc == |Fields(command, |command|)| - 1
      ensures forall k :: 0 <= k <= argc ==> RowIs(argv, k, Fields(command, |command|)[k])
    {
      argv := new char[32, 32];
      argc := 0;
      var start, current := 0, 0;
      while current < |command|
        invariant current <= |command| && start == Start(command, current)
        invariant argc == |Fields(command, current)|
        invariant forall k :: 0 <= k < argc && k < 32 ==> RowIs(argv, k, Fields(command, current)[k])
      {
        FieldsGrow(command, current + 1, |command|);
        if IsSeparator(command[current]) {
          assert Fields(command, current + 1)[argc] == command[start..current];
          assert Fields(command, |command|)[argc] == command[start..current];
          StoreField(argv, argc, command[start..current]);
          argc := argc + 1;
          start := current + 1;
        }
        current := current + 1;
      }
      argc := argc - 1;
    }

    static method StoreField(argv: array2<char>, k: nat, field: string)
      requires argv.Length0 == 32 && argv.Length1 == 32 && k < 32 && |field| < 32
      modifies argv
      ensures RowIs(argv, k, field)
      ensures forall i, j :: 0 <= i < 32 && 0 <= j < 32 && i != k ==> argv[i, j] == old(argv[i, j])
    {
      for j := 0 to |field|
        invariant forall i :: 0 <= i < j ==> argv[k, i] == field[i]
        invariant forall i, l :: 0 <= i < 32 && 0 <= l < 32 && i != k ==> argv[i, l] == old(argv[i, l])
      {
        argv[k, j] := field[j];
      }
      argv[k, |field|] := NUL;
    }

    /** `shell_interpreter`: of the commands only `exit` reaches back to the session. */
    method Interpret(command: string)
      requires Valid() && InTable(command) && command != "" && command[|command| - 1] == '\n' && NUL !in command
      modifies this
      ensures Valid() && size == 0 && commands == old(commands) + [command]
      ensures running == (old(running) && !IsExit(command))
    {
      CommandRejoins(command);
      FieldsInside(command, |command|, 0);
      var argv, argc := Tokenise(command);
      commands := commands + [command];
      var exit := Same(argv, 0, "exit", Fields(command, |command|)[0]);
      if exit {
        running := false;
      }
      size := 0;
    }

    /** `strcmp` of a row with a literal. */
    static method Same(argv: array2<char>, k: nat, word: string, ghost field: string) returns (same: bool)
      requires argv.Length0 == 32 && argv.Length1 == 32 && k < 32 && |word| < 32
      requires RowIs(argv, k, field) && NUL !in field && NUL !in word
      ensures same <==> field == word
    {
      var j := 0;
      while j < |word| && argv[k, j] == word[j]
        invariant j <= |word| && j <= |field| && field[..j] == word[..j]
      {
        j := j + 1;
      }
      same := j == |word| && argv[k, j] == NUL;
    }

    /** The session loop of `InitializeShell`, over the keys that `getchar` yields. */
    method Session(keys: string)
      requires Valid() && Fits(buffer.Length, "", keys)
      modifies this, buffer
      ensures commands == old(commands) + Commands("", keys)
    {
      size := 0;
      running := true;
      ghost var before := commands;
      assert keys[0..] == keys && Commands(Line(), "") == [];
      hide *;
      var i := 0;
      while i < |keys| && running
        invariant Valid() && i <= |keys|
        invariant NUL !in Line()
        invariant running ==> Fits(buffer.Length, Line(), keys[i..])
        invariant before + Commands("", keys) == commands + if running then Commands(Line(), keys[i..]) else []
        decreases |keys| - i
      {
        var c := keys[i];
        KeyTurn(buffer.Length, Line(), keys, i);
        HandOver(commands, Edit(Line(), c), if IsExit(Edit(Line(), c)) then [] else Commands("", keys[i + 1..]));
        i := i + 1;
        if c != NUL {
          PressKey(c);
        }
      }
      size := 0;
    }

    method PressKey(c: char)
      requires Valid() && c != NUL && NUL !in Line()
      requires |Edit(Line(), c)| <= buffer.Length
      requires c == '\n' ==> |Edit(Line(), c)| < buffer.Length && InTable(Edit(Line(), c))
      modifies this, buffer
      ensures Valid() && NUL !in Line()
      ensures c != '\n' ==> Line() == Edit(old(Line()), c) && commands == old(commands) && running == old(running)
      ensures c == '\n' ==> Line() == "" && commands == old(commands) + [Edit(old(Line()), c)]
                            && running == (old(running) && !IsExit(Edit(old(Line()), c)))
    {
      hide InTable, IsExit;
      if c == BACKSPACE {
        var _ := Pop();
      } else {
        Push(c);
      }
      if c == '\n' {
        var command := Read();
        Interpret(command);
      }
    }
  }
}
