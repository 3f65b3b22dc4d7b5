# A simple Unix shell: the command parser and the per-line loop

The shell reads one line at a time, rejects a line that overflows its
80-character buffer, splits the line into arguments with `parseCommand`,
handles the built-in commands `exit`, `clear` and `help` itself, and runs
anything else in a child process. A trailing `&` means the parent does not
wait for the child.

The model has three modules.

- `Tokens` (`tokens.dfy`): `Split(s, seps)` is the reference definition of
  a line's tokens: its maximal runs of non-separator characters, left to
  right. The lemmas about `Split` cover:
  - well-formedness;
  - the bound on the number of tokens;
  - the `Join`/`Split` round trip;
  - concatenation;
  - the scan-state steps both passes of the parser follow;
  - the disagreement between the parser's two separator sets.
- `Parse` (`parse_command.dfy`): `parseCommand` as an imperative method.
  - The C character buffers are `array<char>`.
  - The pointer array is `array<array?<char>>`.
  - malloc and free are the methods of an `Allocator` object. Its `failAt`
    field picks the allocation request that returns NULL.
  - The first pass allocates one exact-size buffer per token. The second
    pass re-walks the line, rewrites every token into its buffer, counts the
    tokens and stores the NULL sentinel.
  - Both passes are proved against `Split`: the stored arguments are exactly
    its tokens.
  - On an allocation failure every buffer of the call is freed.
- `Shell` (`shell.dfy`): the body of `main`'s loop, as pure functions from
  the line fgets stored and parseCommand's result to an `Outcome`:
  - too long;
  - skip;
  - exit, clear or help;
  - run `argv` in the foreground or the background.

  It also holds the loop that discards the rest of an over-long line.

## Model

| member | source | states |
|---|---|---|
| Tokens.Split | main.c:124-186 | the reference token list both passes compute: the maximal separator-free runs of the line, left to right |
| Tokens.SplitWellFormed | main.c:124-146 | every token the scan emits is non-empty and holds no separator |
| Tokens.SplitCountBound | main.c:124-164 | a line of n characters has at most (n+1)/2 tokens, since every token but the last is followed by a separator |
| Tokens.SplitJoin | main.c:124-164 | splitting tokens joined by single spaces gives back exactly those tokens (round trip) |
| Tokens.SplitConcat | main.c:124-146 | cutting a line just before a separator splits its token list at the same place |
| Tokens.SplitAllSeparators | main.c:140-142 | a line made only of separators has no tokens |
| Tokens.SplitAtSeparator | main.c:125-142 | at a separator, the pending run (when non-empty) is the next token, and scanning resumes after the separator |
| Tokens.SplitAtEnd | main.c:148-164 | at the end of the line, the pending run (when non-empty) is the last token |
| Tokens.SplitRunPrefix | main.c:177-180 | a run being copied is a prefix of the token that starts there, so a write lands inside that token's buffer |
| Tokens.ScanRun | main.c:144-145 | a non-separator extends the pending run and is the matching character of the current token |
| Tokens.ScanSkip | main.c:140-142 | a separator with no pending run advances the start and emits nothing |
| Tokens.ScanToken | main.c:126-139 | a separator after a non-empty run emits that run as the next token and restarts after the separator |
| Tokens.ScanEnd | main.c:148-164 | at the end of the line, the tokens emitted plus the pending run are all the tokens |
| Tokens.FirstPassAgreesWithoutCR | main.c:125 | on a line without a carriage return, the first pass's separator set and the full set give the same tokens |
| Tokens.SecondPassFitsWithoutCR | main.c:171 | without a carriage return, the second pass fills no more slots than the first pass allocated, and no token is longer than its buffer |
| Tokens.FirstPassKeepsCR | main.c:125 | the first pass as written keeps a carriage return inside a token |
| Tokens.SecondPassSplitsAtCR | main.c:171 | the second pass as written ends a token at a carriage return |
| Tokens.CarriageReturnOverrun | main.c:125 | for every line `x\ry z`, the second pass as written finds more tokens than the first pass allocated, and the buffers do not fit |
| Tokens.FirstPassKeepsLoneCR | main.c:125 | the first pass as written makes a carriage return standing between spaces a token of its own |
| Tokens.SecondPassSkipsLoneCR | main.c:171 | the second pass as written skips a carriage return standing between spaces |
| Tokens.LoneCarriageReturnOverrun | main.c:125 | for every line `x \r z` with `z` of two or more characters, the first pass as written allocates a two-byte buffer for the lone carriage return, and the second pass writes `z` into it |
| Parse.Allocator.constructor | main.c:128 | an allocator with a failure schedule starts with no requests made and nothing live |
| Parse.Allocator.Malloc | main.c:128-129 | malloc returns NULL exactly on the scheduled request; otherwise it returns a fresh buffer of the requested size that becomes live |
| Parse.Allocator.Free | main.c:132 | free removes exactly that buffer from the live set |
| Parse.StrNCopy | main.c:136 | strncpy from a NUL-free source copies exactly n characters and leaves the rest of the destination unchanged |
| Parse.FreeArguments | main.c:131-133 | the error path frees exactly the buffers of `args[0..n)` |
| Parse.TakeArgument | main.c:128-138 | allocate, copy and NUL-terminate one token; on a NULL from malloc, free everything this call allocated |
| Parse.FirstPassStep | main.c:125-145 | for the separator set it is given, one iteration of the first loop keeps the scan state against `Split`, the stored tokens and the live set |
| Parse.FirstPassLoop | main.c:124-146 | for the separator set it is given, the first loop stores every token ended by a separator, or fails with nothing left allocated |
| Parse.LastArgument | main.c:149-164 | the token ended by the end of the line is stored, after which all tokens are stored; the newline strip never fires |
| Parse.FirstPass | main.c:119-164 | for any separator set containing the newline, the first pass stores every token of the line under that set in its own fresh exact-size buffer, or fails exactly when a token's allocation fails and leaves nothing allocated |
| Parse.FirstPassAsWritten | main.c:119-164 | the first pass with main.c:125's separators (space, tab, newline) stores the tokens of `Split` under that set, or fails exactly when one of their allocations fails; on success the buffers are fresh, the slots after them untouched and one malloc counted per token; on a line without a carriage return these are the tokens of the full set |
| Parse.ParseCommandAsWritten | main.c:107-191 | parseCommand with C's two separator sets, on a line without a carriage return: the same early rejections, -1 exactly when a token's allocation fails with nothing left allocated, or 1 with the tokens in fresh distinct exact-size buffers and NULL after them |
| Parse.RewriteChar | main.c:178 | a second-pass write puts back the character already there, so every buffer keeps its contents |
| Parse.SecondPassStep | main.c:170-181 | one iteration of the second loop keeps the scan state and the buffers' contents, and counts a token exactly at its end |
| Parse.SecondPassEnd | main.c:183-186 | the final pending run is counted as the last token |
| Parse.SecondPass | main.c:166-188 | the second pass counts exactly the tokens, changes no buffer's contents and stores NULL right after them |
| Parse.ParseCommand | main.c:107-191 | an empty line or a leading newline gives -1 and touches nothing; otherwise it gives -1 exactly when a token's allocation fails, with nothing left allocated, or 1 with the tokens of `Split` stored in fresh distinct buffers and NULL after them |
| Shell.Dispatch | main.c:48-72 | exit, clear and help are recognised by the first token; otherwise a last token `&` is removed and means background; the argv kept plus the `&` is the token list |
| Shell.IsTooLong | main.c:34 | the over-length test: fgets filled all MAX_LINE - 1 characters and the last one is not the newline |
| Shell.HandleLine | main.c:34-46 | for a line of at most MAX_LINE - 1 characters (what fgets stores): too long exactly when the buffer is full without a newline; skipped exactly when the parse failed or found nothing; otherwise dispatched |
| Shell.BuiltinsBeforeBackground | main.c:48-72 | a built-in name wins over a trailing `&`: nothing is run |
| Shell.ParentWaits | main.c:87-88 | the parent calls waitpid exactly for a program run without a trailing `&` |
| Shell.WaitUnlessAmpersand | main.c:66-88 | for a program, the parent waits exactly when the last token is not `&` |
| Shell.NewlineEndedNotTooLong | main.c:34 | a line ended by its newline is never too long |
| Shell.FullBufferTooLong | main.c:34 | a full buffer without a final newline is too long, whatever the parse gave (for every parse result) |
| Shell.ArgSlotsSuffice | main.c:13-20 | any line fgets can store fits parseCommand's argument array: the tokens and the NULL take at most MAX_LINE/2+1 slots |
| Shell.BlankLineSkipped | main.c:43-46 | a line of blanks parses to no tokens and is skipped; so is the same line when parseCommand rejects it, as it does one starting with the newline |
| Shell.SplitWithNewline | main.c:43 | the newline fgets keeps adds no token |
| Shell.TypedCommandRuns | main.c:31-88 | a program and its arguments typed with single spaces (and `&`), in a line that fits the MAX_LINE - 1 characters fgets stores, run with exactly those arguments, in the background exactly when `&` was typed |
| Shell.DiscardRest | main.c:37-38 | the discard loop consumes the input up to and including the first newline, or all of it when there is none |

## Left out

- Console I/O is not modelled: the prompt, fflush, the error and farewell
  messages. fgets is an input: the line it stored is a parameter of
  `HandleLine`. getchar is read from a string parameter of `DiscardRest`.
- The effects of `system("clear")`, fork, execvp and waitpid are left out.
  The model computes which of them happens (`Outcome`) and whether the parent
  waits (`ParentWaits`).
- Nothing stops a child whose execvp fails from continuing to run the
  shell's loop. Process behaviour is outside the model.
- End of input is not modelled. main does not check fgets's result, so at
  end of file it goes on with whatever the buffer holds.
- Memory leaks are recorded in the allocator's `live` set but not proved
  about:
  - the buffer of a trailing `&` is not freed, because main sets its pointer
    to NULL before the free loop;
  - built-in commands `continue` without freeing their arguments.
- Parse.ParseCommand is the corrected parser: both of its passes split on
  space, tab, newline and carriage return. C's first pass (main.c:125) leaves
  out the carriage return, so the two passes of C split a line containing one
  differently. C's second pass stays inside the buffers of the first exactly
  when `Tokens.SecondPassFits(line)` holds: it fills no more slots than were
  allocated, and no token is longer than its buffer.
  - `Tokens.CarriageReturnOverrun` shows the condition failing for every line
    `x\ry z`.
  - `Tokens.LoneCarriageReturnOverrun` shows it failing for every line
    `x \r z` whose `z` has two or more characters.
  - `Tokens.SecondPassFitsWithoutCR` shows it holding on every line without a
    carriage return.

  When the condition fails, the call as written has no defined result. The
  whole call as written (`Parse.ParseCommandAsWritten`) is modelled only for
  lines without a carriage return. Lines that contain one but still meet the
  condition are not covered. When they do, the second pass stores different
  tokens than the first pass.
- Parse.FirstPass, Parse.FirstPassStep, Parse.FirstPassLoop and
  Parse.LastArgument take the separator set as a parameter. `ParseCommand`
  passes the full set. `Parse.FirstPassAsWritten` passes main.c:125's set, and
  so models C's first pass as written. The disagreement with the second pass
  is stated on token lists by `Tokens.FirstPassKeepsCR`,
  `Tokens.SecondPassSplitsAtCR`, `Tokens.CarriageReturnOverrun` and
  `Tokens.LoneCarriageReturnOverrun`.
- Parse.ParseCommand: when the status is -1, C leaves `*args_size` unwritten
  and the model returns 0. The contract says nothing about `argsSize` in that
  case.
- Parse.ParseCommand: on an allocation failure, C leaves the NULL from malloc
  in `args[argIndex]` and the pointers to freed buffers in the earlier slots.
  The contract only states that nothing stays allocated.
- Parse.ParseCommand requires `(commandSize + 1) / 2 < args.Length`. C
  trusts its caller for this, and `Shell.ArgSlotsSuffice` proves that main's
  array meets it.
- The step methods of `Parse` (`FirstPassStep`, `LastArgument`,
  `SecondPassStep`, `SecondPassEnd`, `RewriteChar`) are the bodies of
  parseCommand's loops, factored out so that each is proved on its own.
- The `Outcome.NoProgram` case covers a lone `&`. main then passes a NULL
  program name to execvp.
- The help text is not modelled (the help branch prints nothing).
- main.c has no redirection (`<`, `>`) and no `!!` history command, so the model has none either.

## Findings

| source | as written | input that shows it | evidently intended | confidence | as-written member | corrected member |
|---|---|---|---|---|---|---|
| main.c:125 and main.c:171 | the first pass splits on space, tab and newline, while the second pass also splits on carriage return | "a\rbcd e": the first pass allocates buffers for `a\rbcd` (6 bytes) and `e` (2 bytes); the second pass then writes `bcd` and its NUL into the 2-byte buffer of `e`, and `e` into slot 2, which this call did not allocate | both passes split on the same set, including carriage return | not executed | Tokens.CarriageReturnOverrun | Parse.ParseCommand |
| main.c:125 and main.c:171 | the same two separator sets, on a carriage return standing between spaces | "a \r bcd": the first pass allocates `a`, `\r` (2 bytes) and `bcd`; the second pass skips the carriage return and writes `bcd` and its NUL into the 2-byte buffer | both passes split on the same set, including carriage return | not executed | Tokens.LoneCarriageReturnOverrun | Parse.ParseCommand |
