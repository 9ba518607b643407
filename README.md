# VM command reader

A Dafny model of the command reader of a VM-to-assembly translator
(`VMtranslator/src/parser.rs`). The reader takes the lines of one `.vm` file and
prepares them:

- it cuts each line at its first `//` comment marker;
- it trims the rest and drops the lines left empty;
- it splits every remaining line on whitespace into a token list (a *command*);
- it keeps the commands as a stack, reversed, so that popping hands them out in
  file order.

`has_more_commands` and `advance` walk that stack. `advance` pops the next command
into `current_cmd`. `arg1` and `arg2` then select tokens of the current command,
depending on its command type.

The model has two modules:

- `Text` (`text.dfy`) models the Rust string operations the reader uses:
  - `str::find("//")` is `FindComment`;
  - `str::trim` is `Trim`, built from `TrimStart` and `TrimEnd`;
  - `str::split_whitespace` is `SplitWhitespace`. It is written as a reader that
    consumes one character at a time and yields the same tokens as
    `split_whitespace`, which Rust defines as splitting at every whitespace
    character and dropping the empty pieces.

  One whitespace predicate, `IsWhitespace`, serves both trimming and splitting. It is
  the Unicode White_Space set that Rust's `char::is_whitespace` tests.
- `VmParser` (`parser.dfy`) models the reader itself:
  - the `CommandType` enumeration;
  - the line pipeline of `Parser::new`, written as functions (`CleanLine`, `Map`,
    `NonBlank`, `Commands`, `Reverse`);
  - the `Parser` class. Its fields are the stack `commands` and `currentCmd`.
    `Advance` changes them in place. `HasMoreCommands`, `Arg1` and `Arg2` read them.
  - `ReadCommands`, the driver's reading loop.

Explicit `panic!`s are modelled as error values:

- `advance` with nothing left returns `Fail(NoMoreCommands)` and changes nothing;
- `arg1` on a return command is `Err(NoArg1)`;
- `arg2` on a command other than push, pop, function or call is `Err(NoArg2)`.

A panic from indexing `current_cmd` past its end is a precondition of `Arg1` and
`Arg2`.

## Model

| member | source | states |
|---|---|---|
| `Text.FindComment` | VMtranslator/src/parser.rs:28 | the result is an offset exactly when the line contains `//`. That offset holds a `//` and no earlier offset does. |
| `Text.Trim` | VMtranslator/src/parser.rs:30-33 | the result is empty exactly when the input is all whitespace. Otherwise it starts and ends with a non-whitespace character. |
| `Text.TrimOf` | VMtranslator/src/parser.rs:30-33 | take any core whose ends are not whitespace, with whitespace runs before and after it. Trimming the whole gives back exactly that core. |
| `Text.TrimHasNoComment` | VMtranslator/src/parser.rs:29-33 | trimming a string without `//` gives a string without `//`. |
| `Text.SplitWhitespace` | VMtranslator/src/parser.rs:38 | no token is produced exactly when the input is all whitespace. |
| `Text.SplitYieldsTokens` | VMtranslator/src/parser.rs:38 | every token is non-empty and contains no whitespace character. |
| `Text.SplitHasNoComment` | VMtranslator/src/parser.rs:29-38 | if the input holds no `//`, no token holds one. |
| `Text.SplitSkipsLeading` | VMtranslator/src/parser.rs:38 | leading whitespace does not change the tokens. |
| `Text.SplitToken` | VMtranslator/src/parser.rs:38 | a non-empty string without whitespace splits into itself alone. |
| `Text.SplitAppend` | VMtranslator/src/parser.rs:38 | if whitespace separates two strings, or one of them is empty, the tokens of their concatenation are the tokens of the first followed by those of the second. |
| `Text.SplitTrim` | VMtranslator/src/parser.rs:30-38 | splitting the trimmed string gives the same tokens as splitting the untrimmed one. |
| `Text.SplitJoin` | VMtranslator/src/parser.rs:38 | round trip: joining tokens with single spaces and splitting again gives the tokens back. |
| `Text.SplitKeepsContent` | VMtranslator/src/parser.rs:38 | the tokens, concatenated, are exactly the non-whitespace characters of the input, in order. |
| `VmParser.CleanLine` | VMtranslator/src/parser.rs:25-36 | the cleaned line contains no `//`. If it is non-empty, it starts with a non-whitespace character. |
| `VmParser.Map` | VMtranslator/src/parser.rs:25-38 | `.map(f)`: the result has the input's length, and element i of the result is f applied to element i of the input. |
| `VmParser.NonBlank` | VMtranslator/src/parser.rs:37 | the filter keeps only non-empty lines, all taken from its input, and keeps every non-empty line. The kept lines are the input's lines with every empty line removed, counted with multiplicity. |
| `VmParser.NonBlankOne` | VMtranslator/src/parser.rs:37 | a single line is kept exactly when it is not empty. With `NonBlankAppend` this fixes the filter on every list, order included. |
| `VmParser.NonBlankKeepsAll` | VMtranslator/src/parser.rs:37 | a list with no empty line passes the filter unchanged. |
| `VmParser.Commands` | VMtranslator/src/parser.rs:25-39 | there are at most as many commands as lines. Every command is non-empty, and each of its tokens is non-empty, whitespace-free and free of `//`. |
| `VmParser.CommandsAppend` | VMtranslator/src/parser.rs:25-39 | order is preserved: the commands of two consecutive stretches of lines are those of the first stretch followed by those of the second. |
| `VmParser.CommandsOfLine` | VMtranslator/src/parser.rs:25-39 | a single line gives no command when its cleaned text is empty. Otherwise it gives exactly one command: the tokens of that text. |
| `VmParser.CommandsLength` | VMtranslator/src/parser.rs:36-39 | the number of commands equals the number of lines that are not blank once the comment is cut off. |
| `VmParser.LineWithoutComment` | VMtranslator/src/parser.rs:32-38 | take a line without `//`. It gives no command exactly when it is empty or all whitespace. Otherwise it gives exactly its own tokens. |
| `VmParser.LineWithComment` | VMtranslator/src/parser.rs:28-38 | take a line whose first `//` is at offset n. It gives exactly the tokens of its first n characters, whatever follows. If that prefix is blank, it gives no command, so a comment-only line gives none. |
| `VmParser.NonBlankAppend` | VMtranslator/src/parser.rs:37 | filtering two lists joined together gives the filtered first list followed by the filtered second. |
| `VmParser.Reverse` | VMtranslator/src/parser.rs:41 | `into_iter().rev().collect()` keeps the length; `ReverseAt`, `ReversePermutes`, `ReverseReverse` and `PopReverse` are its lemmas. |
| `VmParser.ReverseAt` | VMtranslator/src/parser.rs:41 | element i of the reversed list is element \|s\|-1-i of the input. |
| `VmParser.ReversePermutes` | VMtranslator/src/parser.rs:41 | the reversed list holds the same elements as the input, with the same multiplicities. |
| `VmParser.ReverseReverse` | VMtranslator/src/parser.rs:41 | reversing twice gives the original list, so the reversed store still holds the file's commands. |
| `VmParser.PopReverse` | VMtranslator/src/parser.rs:41 | the top of the reversed stack is the first command. Popping it leaves the reverse of the remaining commands. |
| `VmParser.Parser.constructor` | VMtranslator/src/parser.rs:23-47 | `commands` is exactly the reverse of the file's commands, so the pending commands in file order are exactly `Commands(lines)`. The current command is empty, and every stored command is well formed. |
| `VmParser.Parser.HasMoreCommands` | VMtranslator/src/parser.rs:49-51 | true exactly when some command is still pending. |
| `VmParser.Parser.Advance` | VMtranslator/src/parser.rs:53-60 | it fails, changing nothing, exactly when the stack is empty. Otherwise it pops exactly the top element into `currentCmd` and leaves the rest of the stack unchanged. That element is the next pending command in file order, and the pending list loses exactly its first element. |
| `VmParser.Parser.Arg1` | VMtranslator/src/parser.rs:62-71 | it is an error exactly for `Return`. For `Arithmetic` it is token 0, and for every other type token 1. The result is a token of the current command and, for a well-formed command, contains no whitespace and no `//`. |
| `VmParser.Parser.Arg2` | VMtranslator/src/parser.rs:73-82 | it succeeds exactly for `Push`, `Pop`, `Function` and `Call`, and then returns token 2. Otherwise it is the `NoArg2` error. |
| `VmParser.ReadCommands` | VMtranslator/src/main.rs:38-42 | building a parser and calling `advance` while `has_more_commands` holds hands out exactly the file's commands, in file order. |

## Left out

- Reading the file: opening it, `BufReader::lines` and `unwrap` on I/O errors
  (`parser.rs:23-26`). The model starts from the sequence of lines.
- `command_type`: it is called but not defined in `parser.rs`. The parser takes it as
  a constructor parameter, `commandType`, a function from the token list to
  `CommandType`. No classification rules are assumed.
- Command validation: the translator is meant to reject a malformed command (an unknown
  mnemonic or a wrong argument count) as a parse error. The code does not check this.
  The only failures are the three `panic!`s and out-of-range indexing. The model
  follows the code.
- VmParser.Parser.Arg1: reading token 0 or 1 past the end of `current_cmd` panics in
  Rust. Here it is a precondition, not a modelled failure.
- VmParser.Parser.Arg2: reading token 2 past the end of `current_cmd` panics in Rust.
  Here it is a precondition, not a modelled failure. Also, the driver passes the result on as an integer index. The reader
  returns the token text, and the conversion is not part of this model.
- Rust compile errors in the source: `arg1` and `arg2` lack the `fn` keyword, move a
  `String` out of `current_cmd` by indexing, and collect `&str` pieces into
  `Vec<String>`. The model follows what the code evidently means: select the token
  by index.
- Byte offsets: Rust's `find` and slicing use byte offsets. The model uses character
  offsets, which mark the same cut because `//` is ASCII.
- `has_more_commands` takes `&mut self` but changes nothing, so it is modelled as a
  reading function.
- `main.rs`: argument parsing, directory listing and output path construction are left
  out. So is the dispatch of each command to the code writer
  (`main.rs:8-35`, `main.rs:43-77`).
- `code_writer.rs`: file creation, `set_filename` and `close` are I/O or plain setters.
  `write_arithmetic` and `write_push_pop` have empty bodies, and no other writer exists,
  so there is no code-generation behaviour to model.
