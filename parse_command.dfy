/**
 * parseCommand: split a raw command line into freshly allocated,
 * NUL-terminated argument strings stored in a caller-supplied pointer array,
 * followed by a NULL sentinel.  The C character buffers are `array<char>`,
 * the pointer array is `array<array?<char>>`, and malloc/free are the
 * methods of an `Allocator` whose failures follow a schedule given by the caller.
 */
module Parse {
  import opened Tokens

  /**
   * malloc and free.  Allocation requests are numbered from 0; the request
   * numbered `failAt` returns NULL (a negative `failAt` means none does).
   * `live` is the set of buffers allocated and not yet freed.
   */
  class Allocator {
    const failAt: int
    var count: nat
    var live: set<array<char>>

    constructor (failAt: int)
      ensures this.failAt == failAt && count == 0 && live == {}
    {
      this.failAt := failAt;
      count := 0;
      live := {};
    }

    /** malloc(size): a fresh buffer of `size` characters, or NULL on the scheduled failure. */
    method Malloc(size: nat) returns (p: array?<char>)
      modifies this
      ensures count == old(count) + 1
      ensures p == null <==> old(count) == failAt
      ensures p != null ==> fresh(p) && p.Length == size && live == old(live) + {p}
      ensures p == null ==> live == old(live)
    {
      if count == failAt {
        p := null;
      } else {
        p := new char[size];
        live := live + {p};
      }
      count := count + 1;
    }

    /** free(p) of a buffer this allocator handed out. */
    method Free(p: array<char>)
      requires p in live
      modifies this
      ensures live == old(live) - {p} && count == old(count)
    {
      live := live - {p};
    }
  }

  /** `args[0..n)` are pairwise different buffers. */
  ghost predicate Distinct(args: array<array?<char>>, n: nat)
    requires n <= args.Length
    reads args
  {
    forall k, l :: 0 <= k < l < n ==> args[k] != args[l]
  }

  /** The non-NULL pointers among `ps`. */
  ghost function Buffers(ps: seq<array?<char>>): (bufs: set<array<char>>)
  {
    set k | 0 <= k < |ps| && ps[k] != null :: ps[k]
  }

  /** Appending one more buffer adds exactly that buffer. */
  lemma BuffersAppend(ps: seq<array?<char>>, b: array<char>)
    ensures Buffers(ps + [b]) == Buffers(ps) + {b}
  {
    var qs := ps + [b];
    assert qs[|ps|] == b;
    forall p | p in Buffers(ps)
      ensures p in Buffers(qs)
    {
      var k :| 0 <= k < |ps| && ps[k] != null && ps[k] == p;
      assert qs[k] == p;
    }
  }

  /** The buffers `args[0..n)` point to. */
  ghost function Owned(args: array<array?<char>>, n: nat): (bufs: set<array<char>>)
    requires n <= args.Length
    reads args
  {
    Buffers(args[..n])
  }

  /** `args[0..n)` hold the first `n` tokens, each a NUL-terminated buffer of exactly its size. */
  ghost predicate Holds(args: array<array?<char>>, toks: seq<string>, n: nat)
    requires n <= |toks| && n <= args.Length
    reads args, args[..]
  {
    forall k :: 0 <= k < n ==> args[k] != null && args[k][..] == toks[k] + ['\0']
  }

  /** strncpy(dst, src + from, n) from a NUL-free source: exactly `n` characters are copied. */
  method StrNCopy(dst: array<char>, src: array<char>, from: nat, n: nat)
    requires from + n <= src.Length && n <= dst.Length && dst != src
    requires forall i :: from <= i < from + n ==> src[i] != '\0'
    modifies dst
    ensures dst[..n] == src[from..from + n] && dst[n..] == old(dst[n..])
  {
    var i := 0;
    while i < n
      invariant 0 <= i <= n
      invariant dst[..i] == src[from..from + i]
      invariant dst[n..] == old(dst[n..])
    {
      dst[i] := src[from + i];
      i := i + 1;
    }
  }

  /**
   * `args[k][j] := c` where that cell already holds `c`, as every write of
   * the second pass is: every buffer keeps its contents.
   */
  method RewriteChar(args: array<array?<char>>, ghost toks: seq<string>, ghost m: nat, k: nat, j: nat, c: char)
    requires m <= |toks| && m <= args.Length && Holds(args, toks, m) && Distinct(args, m)
    requires k < m && j <= |toks[k]| && c == (toks[k] + ['\0'])[j]
    modifies args[k]
    ensures Holds(args, toks, m)
  {
    ghost var before := args[k][..];
    args[k][j] := c;
    assert args[k][..] == before;
  }

  /** The error path: free `args[0..n)`. */
  method FreeArguments(args: array<array?<char>>, n: nat, heap: Allocator)
    requires n <= args.Length && Distinct(args, n)
    requires forall k :: 0 <= k < n ==> args[k] != null && args[k] in heap.live
    modifies heap
    ensures heap.live == old(heap.live) - Owned(args, n) && heap.count == old(heap.count)
  {
    for j := 0 to n
      invariant heap.live == old(heap.live) - Owned(args, j) && heap.count == old(heap.count)
    {
      assert args[..j + 1] == args[..j] + [args[j]];
      BuffersAppend(args[..j], args[j]);
      heap.Free(args[j]);
    }
  }

  /**
   * The first pass's block for token `n`, `command[start..end)`:
   * `args[n] = malloc(end - start + 1)`; on NULL free `args[0..n)` and fail,
   * otherwise copy the token and terminate it with NUL.  `live0` is the set
   * of live buffers before the first pass began.
   */
  method TakeArgument(command: array<char>, start: nat, end: nat, args: array<array?<char>>, n: nat,
                      heap: Allocator, ghost toks: seq<string>, ghost live0: set<array<char>>)
    returns (ok: bool)
    requires start < end <= command.Length && forall i :: start <= i < end ==> command[i] != '\0'
    requires n < |toks| && n < args.Length && toks[n] == command[start..end]
    requires Holds(args, toks, n) && Distinct(args, n)
    requires heap.live == live0 + Owned(args, n) && Owned(args, n) !! live0
    modifies args, heap
    ensures heap.count == old(heap.count) + 1
    ensures ok <==> old(heap.count) != heap.failAt
    ensures !ok ==> heap.live == live0
    ensures ok ==>
      fresh(args[n]) && args[..] == old(args[..])[n := args[n]] &&
      Holds(args, toks, n + 1) && Distinct(args, n + 1) &&
      heap.live == live0 + Owned(args, n + 1) && Owned(args, n + 1) !! live0
  {
    var buf := heap.Malloc(end - start + 1);
    ghost var prefix := args[..n];
    args[n] := buf;
    assert args[..n] == prefix;
    if buf == null {
      FreeArguments(args, n, heap);
      return false;
    }
    StrNCopy(buf, command, start, end - start);
    buf[end - start] := '\0';
    assert buf[..] == toks[n] + ['\0'];
    assert args[..n + 1] == prefix + [buf];
    BuffersAppend(prefix, buf);
    return true;
  }

  /**
   * One iteration of the first pass's loop, for character `i`: a separator
   * ends the pending run `command[startIndex..i)`, which when non-empty is
   * stored as token `argIndex`; any other character extends the run.
   * `ok` is false when the allocation fails, everything of this pass freed.
   */
  method FirstPassStep(command: array<char>, commandSize: int, args: array<array?<char>>, heap: Allocator,
                       seps: set<char>, i: nat, startIndex: nat, argIndex: nat,
                       ghost line: string, ghost toks: seq<string>, ghost live0: set<array<char>>)
    returns (ok: bool, nextStart: nat, nextIndex: nat)
    requires i < commandSize <= command.Length && line == command[..commandSize]
    requires forall j :: 0 <= j < commandSize ==> command[j] != '\0'
    requires Scanning(line, seps, toks, argIndex, startIndex, i) && |toks| < args.Length
    requires Holds(args, toks, argIndex) && Distinct(args, argIndex)
    requires heap.live == live0 + Owned(args, argIndex) && Owned(args, argIndex) !! live0
    modifies args, heap
    ensures argIndex <= nextIndex <= argIndex + 1
    ensures !ok ==>
      argIndex < |toks| && old(heap.count) == heap.failAt && heap.count == old(heap.count) + 1 && heap.live == live0
    ensures ok ==>
      Scanning(line, seps, toks, nextIndex, nextStart, i + 1) &&
      Holds(args, toks, nextIndex) && Distinct(args, nextIndex) &&
      heap.live == live0 + Owned(args, nextIndex) && Owned(args, nextIndex) !! live0 &&
      heap.count == old(heap.count) + (nextIndex - argIndex) && !(old(heap.count) <= heap.failAt < heap.count) &&
      (forall k :: 0 <= k < args.Length && k != argIndex ==> args[k] == old(args[k])) &&
      (if nextIndex == argIndex then args[argIndex] == old(args[argIndex]) else fresh(args[argIndex]))
  {
    assert command[i] == line[i];
    if command[i] in seps {
      if i > startIndex {
        ScanToken(line, seps, toks, argIndex, startIndex, i);
        assert line[startIndex..i] == command[startIndex..i] by {
          assert forall j :: startIndex <= j < i ==> line[j] == command[j];
        }
        ok := TakeArgument(command, startIndex, i, args, argIndex, heap, toks, live0);
        if !ok {
          return false, startIndex, argIndex;
        }
        return true, i + 1, argIndex + 1;
      } else {
        ScanSkip(line, seps, toks, argIndex, i);
        return true, startIndex + 1, argIndex;
      }
    } else {
      ScanRun(line, seps, toks, argIndex, startIndex, i);
      return true, startIndex, argIndex;
    }
  }

  /**
   * The first pass's block after its loop: the pending run
   * `command[startIndex..commandSize)`, when non-empty, is stored as the last
   * token, and a trailing newline would be stripped from it.
   */
  method LastArgument(command: array<char>, commandSize: int, args: array<array?<char>>, heap: Allocator,
                      seps: set<char>, startIndex: nat, argIndex: nat,
                      ghost line: string, ghost toks: seq<string>, ghost live0: set<array<char>>)
    returns (ok: bool, nextIndex: nat)
    requires 0 <= commandSize <= command.Length && line == command[..commandSize]
    requires forall j :: 0 <= j < commandSize ==> command[j] != '\0'
    requires '\n' in seps && Scanning(line, seps, toks, argIndex, startIndex, commandSize) && |toks| < args.Length
    requires Holds(args, toks, argIndex) && Distinct(args, argIndex)
    requires heap.live == live0 + Owned(args, argIndex) && Owned(args, argIndex) !! live0
    modifies args, heap
    ensures !ok ==>
      argIndex < |toks| && old(heap.count) == heap.failAt && heap.count == old(heap.count) + 1 && heap.live == live0
    ensures argIndex <= nextIndex <= argIndex + 1
    ensures ok ==>
      nextIndex == |toks| && Holds(args, toks, nextIndex) && Distinct(args, nextIndex) &&
      heap.live == live0 + Owned(args, nextIndex) && Owned(args, nextIndex) !! live0 &&
      heap.count == old(heap.count) + (nextIndex - argIndex) && !(old(heap.count) <= heap.failAt < heap.count) &&
      (forall k :: 0 <= k < args.Length && k != argIndex ==> args[k] == old(args[k])) &&
      (if nextIndex == argIndex then args[argIndex] == old(args[argIndex]) else fresh(args[argIndex]))
  {
    ScanEnd(line, seps, toks, argIndex, startIndex);
    if commandSize > startIndex {
      assert line[startIndex..] == command[startIndex..commandSize];
      ok := TakeArgument(command, startIndex, commandSize, args, argIndex, heap, toks, live0);
      if !ok {
        return false, argIndex;
      }
      // the strip of a trailing newline never fires: the token holds no separator
      ghost var len := commandSize - startIndex;
      assert args[argIndex][len - 1] == toks[argIndex][len - 1] == line[commandSize - 1];
      if args[argIndex][len - 1] == '\n' {
        assert false;
      }
      return true, argIndex + 1;
    }
    return true, argIndex;
  }

  /**
   * The first pass's loop over `command[0..commandSize)`: on success the
   * tokens before the pending run `command[startIndex..commandSize)` are
   * stored; on failure an allocation failed and everything is freed.
   */
  method FirstPassLoop(command: array<char>, commandSize: int, args: array<array?<char>>, heap: Allocator,
                       seps: set<char>, ghost line: string, ghost toks: seq<string>)
    returns (ok: bool, startIndex: nat, argIndex: nat)
    requires 0 <= commandSize <= command.Length && line == command[..commandSize]
    requires forall i :: 0 <= i < commandSize ==> command[i] != '\0'
    requires toks == Split(line, seps) && |toks| < args.Length
    modifies args, heap
    ensures !ok ==> old(heap.count) <= heap.failAt < old(heap.count) + |toks| && heap.live == old(heap.live)
    ensures ok ==>
      Scanning(line, seps, toks, argIndex, startIndex, commandSize) &&
      Holds(args, toks, argIndex) && Distinct(args, argIndex) &&
      (forall k :: 0 <= k < argIndex ==> fresh(args[k])) &&
      (forall k :: argIndex <= k < args.Length ==> args[k] == old(args[k])) &&
      heap.count == old(heap.count) + argIndex && !(old(heap.count) <= heap.failAt < heap.count) &&
      heap.live == old(heap.live) + Owned(args, argIndex) && Owned(args, argIndex) !! old(heap.live)
  {
    ghost var live0 := heap.live;
    argIndex := 0;
    var i := 0;
    startIndex := 0;
    var endIndex := 0;
    while i < commandSize
      invariant endIndex == i && Scanning(line, seps, toks, argIndex, startIndex, i)
      invariant Holds(args, toks, argIndex) && Distinct(args, argIndex)
      invariant forall k :: 0 <= k < argIndex ==> fresh(args[k])
      invariant forall k :: argIndex <= k < args.Length ==> args[k] == old(args[k])
      invariant heap.count == old(heap.count) + argIndex
      invariant !(old(heap.count) <= heap.failAt < heap.count)
      invariant heap.live == live0 + Owned(args, argIndex) && Owned(args, argIndex) !! live0
    {
      ok, startIndex, argIndex := FirstPassStep(command, commandSize, args, heap, seps, i, startIndex, argIndex, line, toks, live0);
      if !ok {
        return;
      }
      endIndex := endIndex + 1;
      i := i + 1;
    }
    return true, startIndex, argIndex;
  }

  /**
   * The first pass of parseCommand (after the two early rejections): scan
   * the line with `startIndex`, `endIndex` and `argIndex`, splitting on
   * `seps`, and store each token in a freshly allocated buffer of exactly its
   * size.  Status -1 when an allocation fails, after freeing the buffers of
   * this call.
   */
  method FirstPass(command: array<char>, commandSize: int, args: array<array?<char>>, heap: Allocator,
                   seps: set<char>)
    returns (status: int, argIndex: nat)
    requires 0 < commandSize <= command.Length && '\n' in seps
    requires forall i :: 0 <= i < commandSize ==> command[i] != '\0'
    requires (commandSize + 1) / 2 < args.Length
    modifies args, heap
    ensures status == -1 || status == 1
    ensures status == -1 <==>
      old(heap.count) <= heap.failAt < old(heap.count) + |Split(command[..commandSize], seps)|
    ensures status == -1 ==> heap.live == old(heap.live)
    ensures status == 1 ==>
      var toks := Split(command[..commandSize], seps);
      argIndex == |toks| && argIndex < args.Length &&
      Holds(args, toks, argIndex) && Distinct(args, argIndex) &&
      (forall k :: 0 <= k < argIndex ==> fresh(args[k])) &&
      (forall k :: argIndex <= k < args.Length ==> args[k] == old(args[k])) &&
      heap.count == old(heap.count) + argIndex &&
      heap.live == old(heap.live) + Owned(args, argIndex)
  {
    ghost var line := command[..commandSize];
    ghost var toks := Split(line, seps);
    ghost var live0 := heap.live;
    SplitCountBound(line, seps);
    var ok, startIndex, argIndex0 := FirstPassLoop(command, commandSize, args, heap, seps, line, toks);
    if !ok {
      return -1, argIndex0;
    }
    // the last token, ended by the end of the line
    var n;
    ghost var stored := args[..argIndex0];
    assert forall k :: 0 <= k < argIndex0 ==> fresh(stored[k]);
    ok, n := LastArgument(command, commandSize, args, heap, seps, startIndex, argIndex0, line, toks, live0);
    if !ok {
      return -1, argIndex0;
    }
    forall k | 0 <= k < n
      ensures fresh(args[k])
    {
      if k < argIndex0 {
        assert args[k] == stored[k];
      }
    }
    return 1, n;
  }

  /**
   * The first pass exactly as parseCommand writes it, splitting on space, tab
   * and newline only: it stores the tokens of that split, which are the
   * tokens of the full separator set whenever the line has no carriage return.
   */
  method FirstPassAsWritten(command: array<char>, commandSize: int, args: array<array?<char>>, heap: Allocator)
    returns (status: int, argIndex: nat)
    requires 0 < commandSize <= command.Length
    requires forall i :: 0 <= i < commandSize ==> command[i] != '\0'
    requires (commandSize + 1) / 2 < args.Length
    modifies args, heap
    ensures status == -1 || status == 1
    ensures status == -1 <==>
      old(heap.count) <= heap.failAt < old(heap.count) + |Split(command[..commandSize], FirstPassSeparators)|
    ensures status == -1 ==> heap.live == old(heap.live)
    ensures status == 1 ==>
      var toks := Split(command[..commandSize], FirstPassSeparators);
      argIndex == |toks| && argIndex < args.Length && Holds(args, toks, argIndex) && Distinct(args, argIndex) &&
      (forall k :: 0 <= k < argIndex ==> fresh(args[k])) &&
      (forall k :: argIndex <= k < args.Length ==> args[k] == old(args[k])) &&
      heap.count == old(heap.count) + argIndex &&
      heap.live == old(heap.live) + Owned(args, argIndex)
    ensures status == 1 && '\r' !in command[..commandSize] ==>
      argIndex == |Split(command[..commandSize], Separators)| &&
      Holds(args, Split(command[..commandSize], Separators), argIndex)
  {
    status, argIndex := FirstPass(command, commandSize, args, heap, FirstPassSeparators);
    if '\r' !in command[..commandSize] {
      FirstPassAgreesWithoutCR(command[..commandSize]);
    }
  }

  /**
   * One iteration of the second pass's loop, for character `i`: a separator
   * ends the pending run of `j` characters, NUL-terminating token `argsSize`
   * and counting it; any other character is written at position `j` of the
   * current token's buffer.
   */
  method SecondPassStep(command: array<char>, args: array<array?<char>>, i: nat, argsSize: nat, j: nat,
                        ghost line: string, ghost toks: seq<string>, ghost start: nat)
    returns (nextSize: nat, nextRun: nat, ghost nextStart: nat)
    requires i < |line| && i < command.Length && command[i] == line[i]
    requires start + j == i && Scanning(line, Separators, toks, argsSize, start, i)
    requires |toks| <= args.Length && Holds(args, toks, |toks|) && Distinct(args, |toks|)
    modifies Owned(args, |toks|)
    ensures nextStart + nextRun == i + 1
    ensures Scanning(line, Separators, toks, nextSize, nextStart, i + 1)
    ensures Holds(args, toks, |toks|)
  {
    ghost var pointers := args[..|toks|];
    if command[i] in Separators {
      if j != 0 {
        ScanToken(line, Separators, toks, argsSize, start, i);
        assert pointers[argsSize] == args[argsSize];
        RewriteChar(args, toks, |toks|, argsSize, j, '\0');
        return argsSize + 1, 0, i + 1;
      }
      ScanSkip(line, Separators, toks, argsSize, i);
      return argsSize, 0, i + 1;
    }
    ScanRun(line, Separators, toks, argsSize, start, i);
    assert pointers[argsSize] == args[argsSize];
    RewriteChar(args, toks, |toks|, argsSize, j, command[i]);
    return argsSize, j + 1, start;
  }

  /**
   * The second pass's block after its loop: a pending run of `j` characters
   * is the last token, which is NUL-terminated and counted.
   */
  method SecondPassEnd(args: array<array?<char>>, argsSize: nat, j: nat, ghost line: string, ghost toks: seq<string>, ghost start: nat)
    returns (nextSize: nat)
    requires start + j == |line| && Scanning(line, Separators, toks, argsSize, start, |line|)
    requires |toks| <= args.Length && Holds(args, toks, |toks|) && Distinct(args, |toks|)
    modifies Owned(args, |toks|)
    ensures nextSize == |toks| && Holds(args, toks, |toks|)
  {
    ScanEnd(line, Separators, toks, argsSize, start);
    if j != 0 {
      assert args[..|toks|][argsSize] == args[argsSize];
      RewriteChar(args, toks, |toks|, argsSize, j, '\0');
      return argsSize + 1;
    }
    return argsSize;
  }

  /**
   * The second pass of parseCommand: walk the line again, writing every
   * character of every token into its buffer and counting the tokens, then
   * store the NULL sentinel.  It writes exactly the bytes the first pass
   * wrote, so the buffers keep their contents, and every write lands inside
   * the buffer of the token it belongs to.
   */
  method SecondPass(command: array<char>, commandSize: int, args: array<array?<char>>, ghost toks: seq<string>)
    returns (argsSize: nat)
    requires 0 <= commandSize <= command.Length
    requires toks == Split(command[..commandSize], Separators)
    requires |toks| < args.Length && Holds(args, toks, |toks|) && Distinct(args, |toks|)
    requires command !in Owned(args, |toks|)
    modifies args, Owned(args, |toks|)
    ensures argsSize == |toks| && args[argsSize] == null
    ensures forall k :: 0 <= k < args.Length && k != argsSize ==> args[k] == old(args[k])
    ensures Holds(args, toks, argsSize) && Distinct(args, argsSize) && Owned(args, argsSize) == old(Owned(args, |toks|))
  {
    ghost var line := command[..commandSize];
    ghost var buffers := Owned(args, |toks|);
    ghost var pointers := args[..|toks|];
    argsSize := 0;
    var j := 0;
    ghost var start := 0;
    for i := 0 to commandSize
      modifies buffers
      invariant start + j == i
      invariant Scanning(line, Separators, toks, argsSize, start, i)
      invariant Holds(args, toks, |toks|)
    {
      argsSize, j, start := SecondPassStep(command, args, i, argsSize, j, line, toks, start);
    }
    argsSize := SecondPassEnd(args, argsSize, j, line, toks, start);
    args[argsSize] := null;
    assert args[..argsSize] == pointers;
  }

  /**
   * parseCommand(command, commandSize, args, &argsSize): status -1 rejects
   * the line (empty, starting with a newline, or out of memory), status 1
   * means `args[0..argsSize)` hold the tokens and `args[argsSize]` is NULL.
   * `argsSize` means something only when the status is 1.
   *
   * Both passes split on space, tab, newline and carriage return; the first
   * pass of the C function leaves out the carriage return (see
   * Tokens.CarriageReturnOverrun for what that breaks).
   */
  method ParseCommand(command: array<char>, commandSize: int, args: array<array?<char>>, heap: Allocator)
    returns (status: int, argsSize: nat)
    requires 0 <= commandSize <= command.Length
    requires forall i :: 0 <= i < commandSize ==> command[i] != '\0'
    requires (commandSize + 1) / 2 < args.Length
    modifies args, heap
    ensures status == -1 || status == 1
    // an empty line, or one starting with a newline, is rejected before anything is touched
    ensures commandSize == 0 || command[0] == '\n' ==> status == -1 && unchanged(args) && unchanged(heap)
    // otherwise the only failure is an allocation failure, during one of the token allocations
    ensures commandSize > 0 && command[0] != '\n' ==>
      (status == -1 <==>
        old(heap.count) <= heap.failAt < old(heap.count) + |Split(command[..commandSize], Separators)|)
    // a failure leaves nothing allocated
    ensures status == -1 ==> heap.live == old(heap.live)
    // success: the tokens, each in its own fresh exact-size buffer, then NULL
    ensures status == 1 ==>
      var toks := Split(command[..commandSize], Separators);
      argsSize == |toks| && argsSize < args.Length &&
      Holds(args, toks, argsSize) && Distinct(args, argsSize) && args[argsSize] == null &&
      (forall k :: 0 <= k < argsSize ==> fresh(args[k])) &&
      (forall k :: argsSize < k < args.Length ==> args[k] == old(args[k])) &&
      heap.count == old(heap.count) + argsSize &&
      heap.live == old(heap.live) + Owned(args, argsSize)
  {
    if commandSize == 0 {
      return -1, 0;
    }
    if command[0] == '\n' {
      return -1, 0;
    }
    var argIndex;
    status, argIndex := FirstPass(command, commandSize, args, heap, Separators);
    if status == -1 {
      return -1, 0;
    }
    ghost var toks := Split(command[..commandSize], Separators);
    argsSize := SecondPass(command, commandSize, args, toks);
  }

  /**
   * parseCommand exactly as written, on a line without a carriage return:
   * the first pass splits on space, tab and newline, the second on those and
   * the carriage return, and on such a line the two agree, so the call
   * behaves as the corrected parser does.
   */
  method ParseCommandAsWritten(command: array<char>, commandSize: int, args: array<array?<char>>, heap: Allocator)
    returns (status: int, argsSize: nat)
    requires 0 <= commandSize <= command.Length && '\r' !in command[..commandSize]
    requires forall i :: 0 <= i < commandSize ==> command[i] != '\0'
    requires (commandSize + 1) / 2 < args.Length
    modifies args, heap
    ensures status == -1 || status == 1
    ensures commandSize == 0 || command[0] == '\n' ==> status == -1 && unchanged(args) && unchanged(heap)
    ensures commandSize > 0 && command[0] != '\n' ==>
      (status == -1 <==>
        old(heap.count) <= heap.failAt < old(heap.count) + |Split(command[..commandSize], Separators)|)
    ensures status == -1 ==> heap.live == old(heap.live)
    ensures status == 1 ==>
      var toks := Split(command[..commandSize], Separators);
      argsSize == |toks| && argsSize < args.Length &&
      Holds(args, toks, argsSize) && Distinct(args, argsSize) && args[argsSize] == null &&
      (forall k :: 0 <= k < argsSize ==> fresh(args[k])) &&
      (forall k :: argsSize < k < args.Length ==> args[k] == old(args[k])) &&
      heap.count == old(heap.count) + argsSize &&
      heap.live == old(heap.live) + Owned(args, argsSize)
  {
    if commandSize == 0 {
      return -1, 0;
    }
    if command[0] == '\n' {
      return -1, 0;
    }
    FirstPassAgreesWithoutCR(command[..commandSize]);
    var argIndex;
    status, argIndex := FirstPassAsWritten(command, commandSize, args, heap);
    if status == -1 {
      return -1, 0;
    }
    ghost var toks := Split(command[..commandSize], Separators);
    argsSize := SecondPass(command, commandSize, args, toks);
  }
}
