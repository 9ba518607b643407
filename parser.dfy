/** The VM command reader (VMtranslator/src/parser.rs): it turns the lines of a
    `.vm` file into a stack of token lists and hands them out one at a time, in file
    order, through `advance`; `arg1` and `arg2` select tokens of the current command. */
module VmParser {
  import opened Text

  /** The nine kinds of VM command. */
  datatype CommandType = Arithmetic | Push | Pop | Label | Goto | If | Function | Return | Call

  /** One command: the whitespace-separated tokens of one line. */
  type Command = seq<string>

  /** The reader's explicit failures (each a `panic!` in the source). */
  datatype ParseError = NoMoreCommands | NoArg1 | NoArg2

  datatype Outcome = Pass | Fail(error: ParseError)

  datatype Result<T> = Ok(value: T) | Err(error: ParseError)

  /** A command as the reader stores it: at least one token, every token non-empty,
      free of whitespace and free of the comment marker. */
  ghost predicate WellFormed(c: Command) {
    c != [] && forall t | t in c :: IsToken(t) && !HasComment(t)
  }

  /** A line after comment stripping and trimming that is kept as a command. */
  ghost predicate IsCodeLine(l: string) {
    l != [] && !IsWhitespace(l[0]) && !HasComment(l)
  }

  /** The per-line step of `Parser::new`: cut the line at the first "//", then trim. */
  function CleanLine(line: string): (r: string)
    ensures !HasComment(r)
    ensures r == [] || !IsWhitespace(r[0])
  {
    match FindComment(line)
    case Some(n) =>
      assert forall i | 0 <= i < n :: CommentAt(line[..n], i) ==> CommentAt(line, i);
      TrimHasNoComment(line[..n]);
      Trim(line[..n])
    case None =>
      TrimHasNoComment(line);
      Trim(line)
  }

  /** `.map(f)` over a sequence. */
  function Map<A, B>(f: A -> B, s: seq<A>): (r: seq<B>)
    ensures |r| == |s| && forall i | 0 <= i < |s| :: r[i] == f(s[i])
  {
    if s == [] then [] else [f(s[0])] + Map(f, s[1..])
  }

  lemma MapAppend<A, B>(f: A -> B, a: seq<A>, b: seq<A>)
    ensures Map(f, a + b) == Map(f, a) + Map(f, b)
  {
  }

  /** `.filter(|l| l != "")`: keeps the non-empty lines, in order. */
  function NonBlank(ls: seq<string>): (r: seq<string>)
    ensures |r| <= |ls|
    ensures forall l | l in r :: l != [] && l in ls
    ensures forall l | l in ls && l != [] :: l in r
    ensures multiset(r) == multiset(ls)[[] := 0]
  {
    if ls == [] then []
    else
      var rest := NonBlank(ls[1..]);
      assert ls == [ls[0]] + ls[1..];
      (if ls[0] == "" then [] else [ls[0]]) + rest
  }

  /** A single line is kept exactly when it is non-empty; with NonBlankAppend this
      fixes the filter on every list, order included. */
  lemma NonBlankOne(l: string)
    ensures NonBlank([l]) == if l == "" then [] else [l]
  {
    assert [l][1..] == [];
  }

  /** A list without empty lines passes the filter unchanged. */
  lemma {:induction false} NonBlankKeepsAll(ls: seq<string>)
    requires forall i | 0 <= i < |ls| :: ls[i] != []
    ensures NonBlank(ls) == ls
  {
    if ls != [] {
      NonBlankKeepsAll(ls[1..]);
    }
  }

  /** The tokens of a kept line form a well-formed command. */
  lemma CodeLineCommand(l: string)
    requires IsCodeLine(l)
    ensures WellFormed(SplitWhitespace(l))
  {
    SplitYieldsTokens(l);
    SplitHasNoComment(l);
    assert !AllWhitespace(l) by { assert !IsWhitespace(l[0]); }
  }

  /** The commands of a file, in file order: the iterator pipeline of `Parser::new`
      before its final reversal. */
  function Commands(lines: seq<string>): (cmds: seq<Command>)
    ensures |cmds| <= |lines|
    ensures forall c | c in cmds :: WellFormed(c)
  {
    var cleaned := Map(CleanLine, lines);
    var code := NonBlank(cleaned);
    assert forall l | l in cleaned :: !HasComment(l) && (l == [] || !IsWhitespace(l[0]));
    forall l | l in code ensures WellFormed(SplitWhitespace(l)) { CodeLineCommand(l); }
    Map(SplitWhitespace, code)
  }

  /** Filtering distributes over concatenation. */
  lemma {:induction false} NonBlankAppend(a: seq<string>, b: seq<string>)
    ensures NonBlank(a + b) == NonBlank(a) + NonBlank(b)
  {
    if a == [] {
      assert a + b == b;
    } else {
      assert (a + b)[0] == a[0] && (a + b)[1..] == a[1..] + b;
      NonBlankAppend(a[1..], b);
    }
  }

  /** Order is preserved: the commands of two consecutive stretches of a file are
      those of the first followed by those of the second. */
  lemma CommandsAppend(a: seq<string>, b: seq<string>)
    ensures Commands(a + b) == Commands(a) + Commands(b)
  {
    MapAppend(CleanLine, a, b);
    NonBlankAppend(Map(CleanLine, a), Map(CleanLine, b));
    MapAppend(SplitWhitespace, NonBlank(Map(CleanLine, a)), NonBlank(Map(CleanLine, b)));
  }

  /** The commands of a single line are those of its cleaned text: none when that is
      empty, else exactly its tokens. */
  lemma CommandsOfLine(line: string)
    ensures Commands([line]) == if CleanLine(line) == [] then [] else [SplitWhitespace(CleanLine(line))]
  {
  }

  /** The number of lines that are not blank once their comment is cut off. */
  ghost function CodeLineCount(lines: seq<string>): nat {
    if lines == [] then 0
    else (if CleanLine(lines[0]) == [] then 0 else 1) + CodeLineCount(lines[1..])
  }

  /** One command per line that is not blank after comment stripping. */
  lemma {:induction false} CommandsLength(lines: seq<string>)
    ensures |Commands(lines)| == CodeLineCount(lines)
  {
    if lines != [] {
      assert lines == [lines[0]] + lines[1..];
      CommandsAppend([lines[0]], lines[1..]);
      CommandsOfLine(lines[0]);
      CommandsLength(lines[1..]);
    }
  }

  /** A line without a comment marker yields no command exactly when it is blank
      (empty or all whitespace), and otherwise yields exactly its tokens. */
  lemma LineWithoutComment(line: string)
    requires !HasComment(line)
    ensures Commands([line]) == if AllWhitespace(line) then [] else [SplitWhitespace(line)]
  {
    CommandsOfLine(line);
    SplitTrim(line);
  }

  /** Nothing from the first "//" on reaches a token: a line whose first marker is
      at offset |code| yields the tokens of code alone, whatever text follows, and no
      command at all when code is blank (so a comment-only line yields none). */
  lemma LineWithComment(code: string, text: string)
    requires !HasComment(code)
    requires code == [] || code[|code| - 1] != '/'
    ensures Commands([code + "//" + text]) == if AllWhitespace(code) then [] else [SplitWhitespace(code)]
  {
    var line := code + "//" + text;
    assert CommentAt(line, |code|);
    assert forall i | 0 <= i < |code| :: !CommentAt(line, i) by {
      forall i | 0 <= i < |code|
        ensures !CommentAt(line, i)
      {
        if i < |code| - 1 { assert !CommentAt(code, i); }
      }
    }
    var n := FindComment(line).value;
    assert n == |code|;
    assert line[..n] == code;
    CommandsOfLine(line);
    SplitTrim(code);
  }

  /** `into_iter().rev().collect()`. */
  function Reverse<T>(s: seq<T>): (r: seq<T>)
    ensures |r| == |s|
  {
    seq(|s|, i requires 0 <= i < |s| => s[|s| - 1 - i])
  }

  /** Element i of the reversed list is element |s| - 1 - i of the original. */
  lemma ReverseAt<T>(s: seq<T>)
    ensures forall i | 0 <= i < |s| :: Reverse(s)[i] == s[|s| - 1 - i]
  {
  }

  /** Reversal keeps every element with its multiplicity: the stack holds the same
      commands as the file, only in the opposite order. */
  lemma {:induction false} ReversePermutes<T>(s: seq<T>)
    ensures multiset(Reverse(s)) == multiset(s)
  {
    if s != [] {
      var n := |s| - 1;
      assert Reverse(s) == [s[n]] + Reverse(s[..n]);
      ReversePermutes(s[..n]);
      assert s == s[..n] + [s[n]];
    }
  }

  lemma ReverseReverse<T>(s: seq<T>)
    ensures Reverse(Reverse(s)) == s
  {
  }

  /** Popping the stack Reverse(s) yields the first element of s and leaves the
      reverse of the rest. */
  lemma PopReverse<T>(stack: seq<T>)
    requires stack != []
    ensures Reverse(stack)[0] == stack[|stack| - 1]
    ensures Reverse(stack[..|stack| - 1]) == Reverse(stack)[1..]
  {
  }

  /** The reader: a stack of commands whose top is the next one in file order, and
      the command most recently handed out. */
  class Parser {
    var commands: seq<Command>
    var currentCmd: Command
    /** `command_type`, which classifies the current command, is not defined in the
        source; it is whatever function the parser is given. */
    const commandType: Command -> CommandType

    /** The commands still to be handed out, in file order. */
    ghost function Pending(): seq<Command>
      reads this
    {
      Reverse(commands)
    }

    ghost predicate Valid()
      reads this
    {
      (forall c | c in commands :: WellFormed(c)) && (currentCmd == [] || WellFormed(currentCmd))
    }

    /** `Parser::new`: the commands of the file, stored reversed so that popping hands
        them out in file order; no current command yet. */
    constructor (lines: seq<string>, commandType: Command -> CommandType)
      ensures Valid()
      ensures commands == Reverse(Commands(lines)) && currentCmd == []
      ensures Pending() == Commands(lines)
      ensures this.commandType == commandType
    {
      commands := Reverse(Commands(lines));
      currentCmd := [];
      this.commandType := commandType;
      ReverseReverse(Commands(lines));
    }

    function HasMoreCommands(): (b: bool)
      reads this
      ensures b <==> Pending() != []
    {
      |commands| > 0
    }

    /** `advance`: pops the next command into currentCmd, or fails when none is left
        (a panic in the source), changing nothing. */
    method Advance() returns (r: Outcome)
      requires Valid()
      modifies this
      ensures Valid()
      ensures r.Fail? <==> old(commands) == []
      ensures r.Fail? ==> r.error == NoMoreCommands && commands == old(commands) && currentCmd == old(currentCmd)
      ensures r.Pass? ==> commands == old(commands)[..|old(commands)| - 1] && currentCmd == old(commands)[|old(commands)| - 1]
      ensures r.Pass? ==> currentCmd == old(Pending())[0] && Pending() == old(Pending())[1..]
    {
      if !HasMoreCommands() {
        return Fail(NoMoreCommands);
      }
      PopReverse(commands);
      r := Pass;
      if HasMoreCommands() {
        currentCmd := commands[|commands| - 1];
        commands := commands[..|commands| - 1];
      }
    }

    /** `arg1`: fails for a return command; the first token (the operation itself) of
        an arithmetic command; the second token of every other command. */
    function Arg1(): (r: Result<string>)
      reads this
      requires commandType(currentCmd) == Arithmetic ==> |currentCmd| > 0
      requires commandType(currentCmd) != Arithmetic && commandType(currentCmd) != Return ==> |currentCmd| > 1
      ensures r.Err? <==> commandType(currentCmd) == Return
      ensures r.Err? ==> r.error == NoArg1
      ensures r.Ok? ==> r.value in currentCmd
      ensures r.Ok? && Valid() ==> IsToken(r.value) && !HasComment(r.value)
      ensures commandType(currentCmd) == Arithmetic ==> r == Ok(currentCmd[0])
      ensures commandType(currentCmd) != Arithmetic && r.Ok? ==> r == Ok(currentCmd[1])
    {
      if commandType(currentCmd) == Return then Err(NoArg1)
      else if commandType(currentCmd) == Arithmetic then Ok(currentCmd[0])
      else Ok(currentCmd[1])
    }

    /** `arg2`: the third token of a push, pop, function or call command; fails for
        every other kind. */
    function Arg2(): (r: Result<string>)
      reads this
      requires commandType(currentCmd) in {Push, Pop, Function, Call} ==> |currentCmd| > 2
      ensures r.Ok? <==> commandType(currentCmd) in {Push, Pop, Function, Call}
      ensures r.Err? ==> r.error == NoArg2
      ensures r.Ok? ==> r.value == currentCmd[2]
      ensures r.Ok? && Valid() ==> IsToken(r.value) && !HasComment(r.value)
    {
      if commandType(currentCmd) != Push && commandType(currentCmd) != Pop
         && commandType(currentCmd) != Function && commandType(currentCmd) != Call
      then Err(NoArg2)
      else Ok(currentCmd[2])
    }
  }

  /** Moving the next pending command to the end of what has been read keeps the two
      together unchanged. */
  lemma ReadStep<T>(read: seq<T>, pending: seq<T>)
    requires pending != []
    ensures (read + [pending[0]]) + pending[1..] == read + pending
  {
    assert pending == [pending[0]] + pending[1..];
  }

  /** The reading loop of the translator's driver: a parser built from the lines of one
      file and advanced while it has more commands hands out exactly the commands of
      that file, in file order. */
  method ReadCommands(lines: seq<string>, commandType: Command -> CommandType) returns (read: seq<Command>)
    ensures read == Commands(lines)
  {
    var p := new Parser(lines, commandType);
    ghost var all := p.Pending();
    read := [];
    while p.HasMoreCommands()
      invariant p.Valid()
      invariant read + p.Pending() == all
      decreases |p.commands|
    {
      ghost var before, pending := read, p.Pending();
      var _ := p.Advance();
      read := read + [p.currentCmd];
      ReadStep(before, pending);
    }
    assert read == read + p.Pending();
  }
}
