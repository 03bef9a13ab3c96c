# mini-shell front end, modelled in Dafny

A model of the part of the mini-shell that turns a raw input line into the
commands to launch. It covers everything up to the point where the shell would
call `fork`/`execvp`:

- the `tokenize` state machine (tokenize.c, with a verbatim copy in shell.c);
- the newline cut and the `strtok(…, ";")` statement split in `main`;
- the `prev` history and the built-in dispatch on `tokens[0]`;
- the marker scan of `execute_command`, which splices NULLs into the token
  array for `<`, `>` and the first `|`;
- the stream wiring of `execute_pipeline` and of the single-command branch,
  as a binding plan plus an abstract descriptor table.

Modules, one file each:

| module | file | what it holds |
|---|---|---|
| `Text` | text.dfy | `Option`, `Concat`, `Join`, `Without` on strings |
| `Tokenizer` | tokenizer.dfy | the scanner state and step, `Tokenize`, reference definitions (`QuoteState`, `Kept`) and lemmas |
| `Statements` | statements.dfy | `CutLine`, the `strtok` model `Split`, and a reference split `Fields` |
| `Resolver` | resolver.dfy | the in-place scan (`MarkRedirections`, `ScanMarkers`) and its declarative meaning `Resolve` |
| `Launcher` | launcher.dfy | the binding `Plan` and the descriptor-table machine (`Apply`, `Run`) |
| `Shell` | shell.dfy | `RecallPrev`, `Dispatch`, `Perform`, `ProcessLine` |
| `Scenarios` | scenarios.dfy | worked examples, derived from the general lemmas |

How the model is built:

- C strings are `seq<char>` without the terminating NUL.
- The NULL-terminated token array is `seq<string>`. Inside the resolver it is
  `seq<Option<string>>`, because the scan writes NULLs into it.
- `isspace` is the C-locale set: space, `\t`, `\n`, `\v`, `\f` and `\r`.
- Every operation is a pure function, except the marker scan. That scan is a
  method whose loop mirrors the C loop and is proved equal to `Resolve`.

## Behaviour of the code that is easy to misread

The model follows the code on each of these points:

- An unterminated quote does not lose its text. The final flush emits the
  pending buffer as a last token when it is non-empty (tokenize.c:77-82).
  `Tokenizer.UnterminatedQuote` states this.
- The space listed in `SPECIAL_CHARS` never becomes a token, because the
  `isspace` branch comes first. Unquoted whitespace only separates
  (`Tokenizer.SpaceSeparates`).
- `strtok` never yields an empty statement. Runs of `;` are skipped, and so
  are leading and trailing `;` (`Statements.SplitIsNonEmptyFields`).
- The scan in `execute_command` stops at the first `|`. Any `<` or `>` after
  it stays in the right-hand argv, verbatim and uninterpreted
  (`Resolver.ResolvePipe`, `Scenarios.RedirectionAfterPipe`).
- A quoted `'|'` gives the token `|`, the same as an unquoted one. The resolver
  therefore treats it as a pipe too (`Scenarios.QuotedPipeIsAPipe`).
- Only the exact line `prev` recalls the history, because the whole cut line
  is compared. `prev ` (with a trailing blank), ` prev` or `prev; ls` are
  ordinary lines: they are stored, and the statement `prev` launches an
  external program named `prev` (`Shell.PrevWithTrailingBlankLaunches`).
- A statement that begins with `<`, `>` or `|` resolves to an empty argv. The
  model carries the empty argv into the plan; what `execvp(NULL, …)` then does
  is outside the model.

## Model

Two definitions carry the meaning the rows below refer to. `Resolver.Resolve`
(shell.c:224-252) states declaratively what the marker scan computes: the argv
before the first marker, the tokens after the first pipe, and the operands of
the last `<` and `>` before it. `Launcher.Plan` (shell.c:167-288) states which
file or pipe end each child's stdin and stdout is bound to. Neither is a row,
because each is a plain definition; the lemmas and methods below relate the
code to them. The descriptor-table machine is written out from the C calls:
`Launcher.Apply` gives the effect of one `open`, `dup2` or `close`;
`Launcher.WriterOps` is the first pipeline child's sequence (shell.c:177-188),
`Launcher.ReaderOps` the second child's (shell.c:198-209), `Launcher.ParentOps`
the parent's closes (shell.c:217-218), and `Launcher.SoleOps` the single
command's child (shell.c:260-279).

| member | source | states |
|---|---|---|
| Tokenizer.Tokenize | tokenize.c:12-87 | no more tokens than input characters; the tokens glued together are the input with its quote delimiters and unquoted whitespace removed, other characters kept in order (the independent reference `Kept`) |
| Tokenizer.ScanInvariant | tokenize.c:25-75 | after any prefix, the scanner's `in_quotes`/`quote_type` equal the reference quote state; emitted text plus the pending buffer is the kept text; each token, non-empty buffer and open quote is paid for by a distinct input character |
| Tokenizer.StepAccounts | tokenize.c:28-74 | one loop iteration, in any of its six branches, preserves that accounting |
| Tokenizer.BlankHasNoTokens | tokenize.c:25-85 | empty input and whitespace-only input give no tokens (the sentinel alone) |
| Tokenizer.SpaceSeparates | tokenize.c:49-57 | unquoted whitespace splits the input into two parts that tokenize independently, and is itself never a token |
| Tokenizer.SpecialStandsAlone | tokenize.c:59-71 | an unquoted metacharacter (parenthesis, `<`, `>`, `;` or the pipe sign) flushes the pending word and becomes a one-character token between the tokens of its two sides |
| Tokenizer.QuotedSpan | tokenize.c:29-46 | a closed quoted span after a word boundary gives exactly one token (empty if the span is), holding the word text before the quote plus the span's text verbatim, without the quote characters; only the same quote character closes it |
| Tokenizer.UnterminatedQuote | tokenize.c:77-82 | a quote left open at the end emits its pending text as a last token when non-empty, and nothing when empty |
| Tokenizer.QuoteFreeTokensAreAtoms | tokenize.c:49-82 | without quotes every token is a lone metacharacter or a non-empty word; no token outside quotes is empty or whitespace |
| Tokenizer.AtomAlone | tokenize.c:49-82 | a lone metacharacter or a word tokenizes to itself |
| Tokenizer.TokenizeJoin | tokenize.c:25-82 | joining atoms with single spaces and tokenizing gives the atoms back |
| Tokenizer.RetokenizeIdempotent | tokenize.c:25-82 | for quote-free input, re-tokenizing the space-joined tokens reproduces them |
| Statements.CutLine | shell.c:39 | the line is the longest prefix of the raw text free of `\n` (and of NUL, where the C string ends); the character after it is one of those two |
| Statements.Split | shell.c:58-62 | every statement `strtok` yields is non-empty and contains no `;` |
| Statements.FieldsAtSeparator | shell.c:58-62 | in the reference split, a `;` divides the fields into those of its left side followed by those of its right side |
| Statements.SplitIsNonEmptyFields | shell.c:58-62 | the statements are exactly the non-empty fields between separators, in order |
| Statements.SplitJoin | shell.c:58-62 | gluing the statements together gives the line with every `;` removed: nothing else is lost and the order is kept |
| Resolver.ResolveArgv | shell.c:230-243 | the argv handed to `execvp` is the token prefix before the first `<`, `>` or pipe token; no marker is in it; the statement is piped exactly when it holds a pipe token |
| Resolver.ResolvePipe | shell.c:231-249 | only the first pipe token splits: the right argv is every token after it verbatim, and the pipe token is in neither argv |
| Resolver.ResolveFiles | shell.c:234-241 | the input (output) file is the token after the last `<` (`>`) before the first pipe, so the last one wins; when that marker is the final token there is no file, because the sentinel is read |
| Resolver.ResolveNoFiles | shell.c:227-243 | with no `<` (`>`) before the first pipe the input (output) file stays NULL, whatever follows the pipe |
| Resolver.MarkRedirections | shell.c:229-243 | the in-place loop stops at the first pipe token or the sentinel, leaves NULL over exactly the `<` and `>` before it, and keeps the operand of the last of each |
| Resolver.SplicedArgv | shell.c:246-248 | the spliced array read from its start to the first NULL is the left argv |
| Resolver.SplicedPiped | shell.c:246-249 | the spliced array read from just after the pipe token is the right argv |
| Resolver.ScanMarkers | shell.c:224-252 | the whole scan on the NULL-terminated array agrees with `Resolve` on both argvs, the pipe position and both files, and the array it leaves is exactly the declarative `Final` (the markers before the pipe and the pipe itself blanked) |
| Launcher.RedirectInEffect | shell.c:260-268 | open, `dup2` onto stdin and close leave stdin on the input file and everything else as it was, or end the child when the open fails |
| Launcher.RedirectOutEffect | shell.c:271-279 | the same for the output file on stdout |
| Launcher.WriterWiring | shell.c:174-193 | the first pipeline child reaches `execvp` with stdin on the input file (or inherited), stdout on the pipe's write end, both pipe ends and the redirection descriptor closed, nothing else changed; it creates or truncates no file |
| Launcher.ReaderWiring | shell.c:195-214 | the second child reaches `execvp` with stdin on the pipe's read end, stdout on the output file (or inherited), the same closes, nothing else changed; it creates or truncates the output file exactly when that file is named and its open succeeds |
| Launcher.ParentRestored | shell.c:216-220 | after closing both pipe ends the parent's table is exactly what it was before `pipe` |
| Launcher.SoleWiring | shell.c:255-288 | the single command's child gets both files on its own stdin and stdout, with the redirection descriptors closed, or ends when either open fails; the output file is created or truncated only when it is named and both opens succeed, so a failing input open ends the child before the output file is touched |
| Launcher.TruncatedAfterIn | shell.c:260-268 | an input redirection creates or truncates nothing, and when its open fails nothing after it runs |
| Launcher.TruncatedAfterOut | shell.c:271-279 | an output redirection creates or truncates its file when the open succeeds, and when the open fails nothing after it runs |
| Launcher.OnlyWriterHoldsWriteEnd | shell.c:186-218 | after the closes, the reader and the parent hold no descriptor on the write end and the writer holds it only on stdout, so the reader sees end-of-file when the writer exits |
| Launcher.OutputOntoClosedStdOut | shell.c:271-279 | when the shell's stdout is closed, `open` returns descriptor 1, and the `dup2` and `close` that follow leave the child with no stdout at all |
| Launcher.WriterOnClosedStdOut | shell.c:168-188 | when the shell's stdout is closed, `pipe` returns descriptor 1 as the read end, and the writer's `close(pipefd[0])` closes the stdout it has just bound to the write end |
| Shell.RecallPrev | shell.c:42-53 | `prev` with an empty history runs nothing and keeps the history; otherwise what runs becomes the history; any other line, the empty one included, runs and is stored |
| Shell.PrevNeverStored | shell.c:42-53 | the line `prev` itself (after the newline cut) is never stored and is never the line that runs |
| Shell.PrevReplays | shell.c:42-53 | `prev` right after a non-empty line runs that line again and keeps the history |
| Shell.EmptyLineClearsHistory | shell.c:42-53 | an empty line clears the history, so a following `prev` runs nothing |
| Shell.Dispatch | shell.c:69-94 | an empty token list is skipped; `exit`, `cd`, `source` and `help` select their built-in, `cd`/`source` taking `tokens[1]` or NULL; anything else is launched with the plan of its resolved command |
| Shell.PerformStep | shell.c:66-94 | one more statement in front adds its dispatched action, if it has tokens, in front; an `exit` cuts everything after it |
| Shell.Perform | shell.c:66-101 | the actions are those of the statements that have tokens, dispatched in order (the reference `Dispatched`), up to and including the first `exit` and nothing after it; at most one action per statement |
| Shell.PerformWithoutExit | shell.c:66-101 | without an `exit`, every statement that has tokens runs, in order |
| Shell.ProcessLine | shell.c:38-63 | a line other than `prev` is cut at its newline, stored, and its statements are performed; `prev` keeps the history and performs the stored line's statements, or nothing when none is stored; the stored line never becomes `prev` and never holds a newline it did not hold before |
| Shell.BlankLineRunsNothing | shell.c:38-72 | a raw line whose cut line is only separators and whitespace launches nothing, and its cut line still replaces the history |
| Shell.PrevBlankIsOneStatement | shell.c:39-62 | the raw line `prev ` is its own cut line and a single statement |
| Shell.AtomThenBlank | tokenize.c:49-82 | a word followed by one blank tokenizes to that word alone |
| Shell.PrevWithTrailingBlankLaunches | shell.c:42-93 | the line `prev ` does not recall the history: it is stored, and launches the command `prev` |
| Scenarios.WordQuotedWord | tokenize.c:29-57 | a word, a quoted span and a word, separated by single spaces, give three tokens |
| Scenarios.QuotedArgument | tokenize.c:29-57 | `echo "a b" c` gives `echo`, `a b`, `c` |
| Scenarios.WordThenQuote | tokenize.c:29-40 | word text directly before a quote merges into the quoted token |
| Scenarios.WordMergesIntoQuote | tokenize.c:29-40 | `ab"c d"` gives the one token `abc d` |
| Scenarios.EmptyQuotes | tokenize.c:33-40 | `''` gives one empty token |
| Scenarios.QuotedPipeIsAPipe | shell.c:231-233 | a quoted pipe sign and a bare one give the same token, and the resolver treats it as a pipe |
| Scenarios.OutputRedirectionTokens | tokenize.c:25-82 | the text `ls -l > out.txt` is the four tokens `ls`, `-l`, `>`, `out.txt` |
| Scenarios.OutputRedirection | shell.c:230-279 | the text `ls -l > out.txt` tokenizes to those four tokens and plans one child running `ls -l` with stdin inherited and stdout on `out.txt` |
| Scenarios.InputRedirectionAndPipeTokens | tokenize.c:25-82 | the text `cat < in.txt`, a pipe sign, `wc -l` is six tokens, the pipe sign one of them |
| Scenarios.InputRedirectionAndPipe | shell.c:167-249 | that text tokenizes to those six tokens and plans a pipeline: `cat` with stdin on `in.txt` and stdout on the write end, `wc -l` with stdin on the read end and stdout inherited |
| Scenarios.LonePipe | shell.c:246-249 | a lone pipe token resolves to two empty argvs |
| Scenarios.RedirectionAfterPipe | shell.c:230-233 | in `a`, pipe, `b > f` the `> f` stays in the right argv and names no file |
| Scenarios.LastInputWins | shell.c:234-237 | with two `<` the last one's file is used |
| Scenarios.ArgumentsAfterRedirectionDropped | shell.c:238-241 | arguments after a redirection's file are not in the argv |
| Scenarios.TrailingMarkerNamesNoFile | shell.c:234-237 | a final `<` resets the input file to none, even after an earlier one named a file |
| Scenarios.TwoStatements | shell.c:58-62 | two `;`-free runs around one `;` are two statements |
| Scenarios.QuotedSemicolonSplits | shell.c:58-62 | a `;` inside quotes still splits the line |

## Left out

- The system calls are not modelled: `fork`, `execvp`, `wait`, `pipe`, `open`,
  `dup2`, `close` and `chdir`. What they do to descriptors is replayed on the
  abstract table; process creation, exec and waiting are not. This also covers
  the exit on `pipe` failure, the `fork` failure branch (shell.c:256-257), the
  exec-failure exits and the interleaving of the two children.
- Descriptor numbers returned by `open` and `pipe` are parameters required to
  be fresh, not the kernel's lowest free number.
- Launcher.SoleWiring: requires the shell's stdin and stdout to be open, and the
  fresh descriptors to differ from 0 and 1. A shell started with stdout closed
  still runs, and then `open` returns 1 and the child loses its stdout;
  `Launcher.OutputOntoClosedStdOut` states that case on its own.
- Launcher.WriterWiring: requires the same, so it does not cover a shell with
  stdout closed, where `pipe` returns 1 as the read end and the writer closes
  its own stdout; `Launcher.WriterOnClosedStdOut` states that case.
- Launcher.ReaderWiring: requires the same, so it does not cover a shell with
  stdin or stdout closed, where a pipe end or the output file takes descriptor
  0 or 1.
- The interactive loop is not modelled: `fgets`, the prompt, the greeting and
  goodbye messages, and end of input. `ProcessLine` models one pass of it over
  a line already read.
- Text that only goes to the terminal is not modelled: the `help` text, the
  `prev` echo, and the `cd`/`source` error messages. `ChangeDir` and
  `RunScript` carry only their argument, possibly NULL.
- `run_script` (shell.c:123-145) is not modelled, because it is file I/O. Its
  lines go straight to `tokenize` and `execute_command`. They bypass the `;`
  split, the built-ins and the empty-statement check.
- `prev_command` (shell.c:148-154) is never called and is not modelled.
- The printing `main` of tokenize.c (tokenize.c:89-116) is an I/O driver and is
  not modelled.
- A `malloc` failure in `tokenize`, which makes the statement be skipped, is
  not modelled.
- The fixed arrays are not modelled: `MAX_TOKENS`, `MAX_INPUT_SIZE`, and
  `fgets` splitting long lines. The only bound stated is `Tokenize`'s: at most
  one token per input character.
- Characters are Dafny `char`s. Locale-dependent `isspace` and signed-`char`
  behaviour on non-ASCII bytes are not modelled.
- Tokenizer.Tokenize: the bound it states is on the count of tokens. The
  stronger fact, that each token is paid for by a distinct input character, is
  stated on the scanner state by `Tokenizer.ScanInvariant`.
