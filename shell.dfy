/**
 * The shell's handling of one input line (the body of `main`'s loop):
 * the over-length check, skipping a failed or empty parse, the built-in
 * commands `exit`, `clear` and `help`, and the trailing `&` that runs a
 * program without waiting for it.  The line and the parse result are inputs;
 * what the shell then does is an `Outcome`.
 */
module Shell {
  import opened Tokens

  /** MAX_LINE: the size of the line buffer handed to fgets. */
  const MaxLine: nat := 80

  /** The number of slots of `main`'s argument array, MAX_LINE/2 + 1. */
  const ArgSlots: nat := MaxLine / 2 + 1

  /** The command names `main` handles itself. */
  const Builtins: set<string> := {"exit", "clear", "help"}

  /** The tokens parseCommand produced, or `None` when it returned -1. */
  datatype Option<T> = None | Some(value: T)

  /** What `main` does with one line. */
  datatype Outcome =
    | TooLong                                   // error message, rest of the input line discarded
    | Skip                                      // parse failed or no tokens: prompt again
    | Exit                                      // "Shell released", leave the loop
    | Clear                                     // system("clear")
    | Help                                      // the (empty) help branch
    | NoProgram                                 // a lone "&": no program name is left to run
    | Run(argv: seq<string>, background: bool)  // fork and exec `argv`; wait unless `background`

  /**
   * The over-length test on what fgets stored: the buffer is full (MAX_LINE - 1
   * characters) and its last character is not the newline.
   */
  predicate IsTooLong(line: string)
  {
    |line| == MaxLine - 1 && line[MaxLine - 2] != '\n'
  }

  /** The built-in dispatch on `args[0]`, then the trailing-`&` test on the last token. */
  function Dispatch(args: seq<string>): (o: Outcome)
    requires args != []
    ensures o == Exit <==> args[0] == "exit"
    ensures o == Clear <==> args[0] == "clear"
    ensures o == Help <==> args[0] == "help"
    ensures o == NoProgram <==> args == ["&"]
    ensures o.Run? <==> args[0] !in Builtins && args != ["&"]
    ensures o.Run? ==> o.argv != [] && o.argv[0] == args[0]
    ensures o.Run? ==> (o.background <==> args[|args| - 1] == "&")
    ensures o.Run? ==> o.argv + (if o.background then ["&"] else []) == args
  {
    if args[0] == "exit" then Exit
    else if args[0] == "clear" then Clear
    else if args[0] == "help" then Help
    else if args[|args| - 1] == "&" then
      if |args| == 1 then NoProgram else Run(args[..|args| - 1], true)
    else Run(args, false)
  }

  /**
   * One pass of `main`'s loop: `line` is what fgets stored and `parsed` the
   * tokens parseCommand produced, `None` when it returned -1.  fgets stores
   * at most MAX_LINE - 1 characters.
   */
  function HandleLine(line: string, parsed: Option<seq<string>>): (o: Outcome)
    requires |line| <= MaxLine - 1
    ensures o == TooLong <==> IsTooLong(line)
    ensures o == Skip <==> !IsTooLong(line) && (parsed == None || parsed == Some([]))
    ensures !IsTooLong(line) && parsed.Some? && parsed.value != [] ==> o == Dispatch(parsed.value)
  {
    if IsTooLong(line) then TooLong
    else match parsed
      case None => Skip
      case Some(args) => if args == [] then Skip else Dispatch(args)
  }

  /** The parent waits for the child exactly when the command did not end in `&`. */
  predicate ParentWaits(o: Outcome)
  {
    o.Run? && !o.background
  }

  /** A built-in wins over a trailing `&`: `exit &` exits, it does not run `exit` in the background. */
  lemma BuiltinsBeforeBackground(args: seq<string>)
    requires args != [] && args[0] in Builtins
    ensures !Dispatch(args).Run? && !ParentWaits(Dispatch(args))
  {
  }

  /** For a program (not a built-in), the parent waits exactly when the last token is not `&`. */
  lemma WaitUnlessAmpersand(args: seq<string>)
    requires args != [] && args[0] !in Builtins && args != ["&"]
    ensures ParentWaits(Dispatch(args)) <==> args[|args| - 1] != "&"
  {
  }

  /** A line fgets ended with its newline is never too long: a 78-character command fits. */
  lemma NewlineEndedNotTooLong(line: string)
    requires line != [] && line[|line| - 1] == '\n'
    ensures !IsTooLong(line)
  {
  }

  /** A full buffer whose last character is not a newline is too long, whatever it holds. */
  lemma FullBufferTooLong(line: string)
    requires |line| == MaxLine - 1 && line[|line| - 1] != '\n'
    ensures forall parsed :: HandleLine(line, parsed) == TooLong
  {
  }

  /**
   * What fgets can store (at most MAX_LINE - 1 characters) fits the argument
   * array: parseCommand's requirement on it holds, and the tokens and the
   * NULL after them take at most ArgSlots slots.
   */
  lemma ArgSlotsSuffice(line: string)
    requires |line| <= MaxLine - 1
    ensures (|line| + 1) / 2 < ArgSlots
    ensures |Split(line, Separators)| + 1 <= ArgSlots
  {
    SplitCountBound(line, Separators);
  }

  /**
   * A line of blanks parses to no tokens and is skipped.  A line that starts
   * with the newline (the usual blank line) is rejected by parseCommand
   * instead, and is skipped as well.
   */
  lemma BlankLineSkipped(line: string)
    requires |line| <= MaxLine - 1 && forall i :: 0 <= i < |line| ==> line[i] in Separators
    ensures !IsTooLong(line) ==>
      HandleLine(line, Some(Split(line, Separators))) == Skip && HandleLine(line, None) == Skip
  {
    SplitAllSeparators(line, Separators);
  }

  /** The newline at the end of a line adds no token. */
  lemma SplitWithNewline(s: string)
    ensures Split(s + ['\n'], Separators) == Split(s, Separators)
  {
    SplitConcat(s, ['\n'], Separators);
    SplitAllSeparators(['\n'], Separators);
  }

  /**
   * End to end: a program name and arguments typed with single spaces, then
   * `&` when `background`, then the newline, run that program with exactly
   * those arguments, in the background exactly when `&` was typed, provided
   * the whole line fits the MAX_LINE - 1 characters fgets stores.
   */
  lemma TypedCommandRuns(argv: seq<string>, background: bool)
    requires argv != [] && WellFormed(argv, Separators) && argv[0] !in Builtins
    requires !background ==> argv[|argv| - 1] != "&"
    requires |Join(if background then argv + ["&"] else argv)| + 1 <= MaxLine - 1
    ensures
      var toks := if background then argv + ["&"] else argv;
      var line := Join(toks) + ['\n'];
      !IsTooLong(line) && HandleLine(line, Some(Split(line, Separators))) == Run(argv, background)
  {
    var toks := if background then argv + ["&"] else argv;
    var line := Join(toks) + ['\n'];
    assert WellFormed(toks, Separators) by {
      forall k | 0 <= k < |toks|
        ensures toks[k] != [] && NoSeparator(toks[k], Separators)
      {
        if k < |argv| {
          assert toks[k] == argv[k];
        }
      }
    }
    SplitWithNewline(Join(toks));
    SplitJoin(toks, Separators);
    NewlineEndedNotTooLong(line);
    if background {
      assert toks[..|toks| - 1] == argv;
    }
  }

  /**
   * The discard loop after an over-long line: read characters until a
   * newline (consumed too) or the end of the input.
   */
  method DiscardRest(input: string) returns (consumed: nat)
    ensures consumed <= |input|
    ensures forall i :: 0 <= i < consumed - 1 ==> input[i] != '\n'
    ensures '\n' in input ==> 0 < consumed && input[consumed - 1] == '\n'
    ensures '\n' !in input ==> consumed == |input|
  {
    consumed := 0;
    while consumed < |input| && input[consumed] != '\n'
      invariant consumed <= |input|
      invariant forall i :: 0 <= i < consumed ==> input[i] != '\n'
    {
      consumed := consumed + 1;
    }
    if consumed < |input| {
      consumed := consumed + 1;
    }
  }
}
