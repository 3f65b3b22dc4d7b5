/**
 * The tokens of a shell command line: its maximal runs of characters that
 * are not separators, left to right.  `Split` is the reference definition
 * that both passes of the tokenizer (module Parse) are proved against.
 */
module Tokens {

  /** The characters the tokenizer splits on: space, tab, newline and carriage return. */
  const Separators: set<char> := {' ', '\t', '\n', '\r'}

  /** The characters the FIRST pass of parseCommand splits on: no carriage return. */
  const FirstPassSeparators: set<char> := {' ', '\t', '\n'}

  /** No character of `t` is a separator. */
  predicate NoSeparator(t: string, seps: set<char>)
  {
    forall i :: 0 <= i < |t| ==> t[i] !in seps
  }

  /** A well-formed token list: every token is non-empty and separator-free. */
  predicate WellFormed(toks: seq<string>, seps: set<char>)
  {
    forall k :: 0 <= k < |toks| ==> toks[k] != [] && NoSeparator(toks[k], seps)
  }

  /** The first position at or after `p` that does not hold a separator (`|s|` if none). */
  function SkipFrom(s: string, seps: set<char>, p: nat): (q: nat)
    requires p <= |s|
    ensures p <= q <= |s| && (q == |s| || s[q] !in seps)
    decreases |s| - p
  {
    if p < |s| && s[p] in seps then SkipFrom(s, seps, p + 1) else p
  }

  /** The end of the separator-free run that starts at `p`. */
  function RunEnd(s: string, seps: set<char>, p: nat): (q: nat)
    requires p <= |s|
    ensures p <= q <= |s| && (q == |s| || s[q] in seps)
    ensures forall i :: p <= i < q ==> s[i] !in seps
    decreases |s| - p
  {
    if p == |s| || s[p] in seps then p else RunEnd(s, seps, p + 1)
  }

  /** A separator-free stretch starting at `p` lies inside the run `RunEnd` measures. */
  lemma {:induction false} RunEndCovers(s: string, seps: set<char>, p: nat, q: nat)
    requires p <= q <= |s| && forall i :: p <= i < q ==> s[i] !in seps
    ensures q <= RunEnd(s, seps, p)
    decreases q - p
  {
    if p < q {
      RunEndCovers(s, seps, p + 1, q);
    }
  }

  /** The tokens of `s` from position `p` on: skip separators, take a maximal run, repeat. */
  function SplitFrom(s: string, seps: set<char>, p: nat): (toks: seq<string>)
    requires p <= |s|
    decreases |s| - p
  {
    var a := SkipFrom(s, seps, p);
    if a == |s| then []
    else
      var b := RunEnd(s, seps, a);
      [s[a..b]] + SplitFrom(s, seps, b)
  }

  /** The tokens of `s`: its maximal separator-free runs, left to right. */
  function Split(s: string, seps: set<char>): (toks: seq<string>)
  {
    SplitFrom(s, seps, 0)
  }

  /** A separator does not start or end a token. */
  lemma SplitSkipsSeparator(s: string, seps: set<char>, p: nat)
    requires p < |s| && s[p] in seps
    ensures SplitFrom(s, seps, p) == SplitFrom(s, seps, p + 1)
  {
    assert SkipFrom(s, seps, p) == SkipFrom(s, seps, p + 1);
  }

  /** A separator-free stretch `s[p..q]` ending at a separator or at the end of `s` is the next token. */
  lemma SplitTakesRun(s: string, seps: set<char>, p: nat, q: nat)
    requires p < q <= |s| && forall i :: p <= i < q ==> s[i] !in seps
    requires q == |s| || s[q] in seps
    ensures SplitFrom(s, seps, p) == [s[p..q]] + SplitFrom(s, seps, q)
  {
    assert SkipFrom(s, seps, p) == p;
    RunEndCovers(s, seps, p, q);
    assert RunEnd(s, seps, p) == q;
  }

  /**
   * The step of both scanning loops at a separator `s[i]`: the pending run
   * `s[start..i]`, when non-empty, is the next token, and scanning resumes
   * after the separator.
   */
  lemma SplitAtSeparator(s: string, seps: set<char>, start: nat, i: nat)
    requires start <= i < |s| && NoSeparator(s[start..i], seps) && s[i] in seps
    ensures SplitFrom(s, seps, start) == (if start < i then [s[start..i]] else []) + SplitFrom(s, seps, i + 1)
  {
    if start < i {
      assert forall j :: start <= j < i ==> s[j] == s[start..i][j - start];
      SplitTakesRun(s, seps, start, i);
    }
    SplitSkipsSeparator(s, seps, i);
  }

  /** At the end of the line the pending run, when non-empty, is the last token. */
  lemma SplitAtEnd(s: string, seps: set<char>, start: nat)
    requires start <= |s| && NoSeparator(s[start..], seps)
    ensures SplitFrom(s, seps, start) == if start < |s| then [s[start..]] else []
  {
    assert SplitFrom(s, seps, |s|) == [];
    if start < |s| {
      assert forall j :: start <= j < |s| ==> s[j] == s[start..][j - start];
      SplitTakesRun(s, seps, start, |s|);
      assert s[start..|s|] == s[start..];
    }
  }

  /**
   * While a run `s[a..b]` is being copied, it is a prefix of the next token:
   * this is what keeps the second pass inside the buffer the first pass allocated.
   */
  lemma SplitRunPrefix(s: string, seps: set<char>, a: nat, b: nat)
    requires a < b <= |s| && NoSeparator(s[a..b], seps)
    ensures SplitFrom(s, seps, a) != []
    ensures b - a <= |SplitFrom(s, seps, a)[0]| && SplitFrom(s, seps, a)[0][..b - a] == s[a..b]
  {
    assert forall j :: a <= j < b ==> s[j] == s[a..b][j - a];
    RunEndCovers(s, seps, a, b);
    var q := RunEnd(s, seps, a);
    SplitTakesRun(s, seps, a, q);
    assert s[a..q][..b - a] == s[a..b];
  }

  /**
   * The state of a left-to-right scan of `s`: the pending run `s[start..i)`
   * holds no separator, `n` tokens have been emitted, and the tokens still
   * to come from `start` on are exactly `toks[n..]`.
   */
  ghost predicate Scanning(s: string, seps: set<char>, toks: seq<string>, n: nat, start: nat, i: nat)
  {
    start <= i <= |s| && (forall j :: start <= j < i ==> s[j] !in seps) &&
    n <= |toks| && SplitFrom(s, seps, start) == toks[n..]
  }

  /** A non-separator extends the pending run, which is a prefix of the next token. */
  lemma ScanRun(s: string, seps: set<char>, toks: seq<string>, n: nat, start: nat, i: nat)
    requires Scanning(s, seps, toks, n, start, i) && i < |s| && s[i] !in seps
    ensures Scanning(s, seps, toks, n, start, i + 1)
    ensures n < |toks| && i - start < |toks[n]| && toks[n][i - start] == s[i]
  {
    SplitRunPrefix(s, seps, start, i + 1);
    assert toks[n..][0] == toks[n];
    assert toks[n][..i + 1 - start][i - start] == s[start..i + 1][i - start];
  }

  /** A separator after an empty run emits nothing. */
  lemma ScanSkip(s: string, seps: set<char>, toks: seq<string>, n: nat, i: nat)
    requires Scanning(s, seps, toks, n, i, i) && i < |s| && s[i] in seps
    ensures Scanning(s, seps, toks, n, i + 1, i + 1)
  {
    SplitSkipsSeparator(s, seps, i);
  }

  /** A separator after a non-empty run emits that run as token `n`. */
  lemma ScanToken(s: string, seps: set<char>, toks: seq<string>, n: nat, start: nat, i: nat)
    requires Scanning(s, seps, toks, n, start, i) && start < i < |s| && s[i] in seps
    ensures n < |toks| && toks[n] == s[start..i]
    ensures Scanning(s, seps, toks, n + 1, i + 1, i + 1)
  {
    SplitAtSeparator(s, seps, start, i);
    assert toks[n..][0] == toks[n] && toks[n..][1..] == toks[n + 1..];
  }

  /** At the end of `s` the pending run, when non-empty, is the last token. */
  lemma ScanEnd(s: string, seps: set<char>, toks: seq<string>, n: nat, start: nat)
    requires Scanning(s, seps, toks, n, start, |s|)
    ensures start < |s| ==> n + 1 == |toks| && toks[n] == s[start..]
    ensures start == |s| ==> n == |toks|
  {
    SplitAtEnd(s, seps, start);
    if start < |s| {
      assert toks[n..][0] == toks[n] && |toks[n..]| == 1;
    } else {
      assert |toks[n..]| == 0;
    }
  }

  /** Every token is non-empty and contains no separator. */
  lemma {:induction false} SplitFromWellFormed(s: string, seps: set<char>, p: nat)
    requires p <= |s|
    ensures WellFormed(SplitFrom(s, seps, p), seps)
    decreases |s| - p
  {
    var a := SkipFrom(s, seps, p);
    if a < |s| {
      var b := RunEnd(s, seps, a);
      assert NoSeparator(s[a..b], seps) by {
        assert forall j :: 0 <= j < b - a ==> s[a..b][j] == s[a + j];
      }
      SplitFromWellFormed(s, seps, b);
    }
  }

  /** Every token of a line is non-empty and contains no separator. */
  lemma SplitWellFormed(s: string, seps: set<char>)
    ensures WellFormed(Split(s, seps), seps)
  {
    SplitFromWellFormed(s, seps, 0);
  }

  /** From `p`, the tokens are the next run plus the tokens after it, or none at all. */
  lemma SplitFromCount(s: string, seps: set<char>, p: nat)
    requires p <= |s|
    ensures SkipFrom(s, seps, p) == |s| ==> |SplitFrom(s, seps, p)| == 0
    ensures SkipFrom(s, seps, p) < |s| ==>
      p < RunEnd(s, seps, SkipFrom(s, seps, p)) &&
      |SplitFrom(s, seps, p)| == 1 + |SplitFrom(s, seps, RunEnd(s, seps, SkipFrom(s, seps, p)))|
  {
  }

  /**
   * The characters from `p` on hold at most half of `|s| - p + 1` tokens:
   * every token but the last is followed by at least one separator.
   */
  lemma {:induction false} SplitFromCountBound(s: string, seps: set<char>, p: nat)
    requires p <= |s|
    ensures 2 * |SplitFrom(s, seps, p)| <= |s| - p + 1
    decreases |s| - p
  {
    SplitFromCount(s, seps, p);
    var a := SkipFrom(s, seps, p);
    if a < |s| {
      var b := RunEnd(s, seps, a);
      if b < |s| {
        SplitSkipsSeparator(s, seps, b);
        SplitFromCountBound(s, seps, b + 1);
        assert |SplitFrom(s, seps, p)| == 1 + |SplitFrom(s, seps, b + 1)|;
      } else {
        SplitFromCount(s, seps, b);
        assert |SplitFrom(s, seps, p)| == 1;
      }
    }
  }

  /** A line of `n` characters holds at most `(n + 1) / 2` tokens. */
  lemma SplitCountBound(s: string, seps: set<char>)
    ensures |Split(s, seps)| <= (|s| + 1) / 2
  {
    SplitFromCountBound(s, seps, 0);
  }

  /** The characters of `y` sit in `x + y` shifted by `|x|`: a separator-free stretch stays one. */
  lemma ShiftChars(x: string, y: string, seps: set<char>, p: nat, q: nat)
    requires p < q <= |y| && forall i :: p <= i < q ==> y[i] !in seps
    requires q == |y| || y[q] in seps
    ensures forall i :: |x| + p <= i < |x| + q ==> (x + y)[i] !in seps
    ensures |x| + q == |x + y| || (x + y)[|x| + q] in seps
    ensures (x + y)[|x| + p..|x| + q] == y[p..q]
  {
    forall i | |x| + p <= i < |x| + q
      ensures (x + y)[i] !in seps
    {
      assert (x + y)[i] == y[i - |x|];
    }
    if q < |y| {
      assert (x + y)[|x| + q] == y[q];
    }
  }

  /** A run of `y` is a run of `x + y`, shifted by `|x|`. */
  lemma ShiftRun(x: string, y: string, seps: set<char>, p: nat, q: nat)
    requires p < q <= |y| && forall i :: p <= i < q ==> y[i] !in seps
    requires q == |y| || y[q] in seps
    ensures SplitFrom(x + y, seps, |x| + p) == [y[p..q]] + SplitFrom(x + y, seps, |x| + q)
  {
    ShiftChars(x, y, seps, p, q);
    SplitTakesRun(x + y, seps, |x| + p, |x| + q);
  }

  /** What follows a prefix `x` splits as it would on its own. */
  lemma {:induction false} SplitFromShift(x: string, y: string, seps: set<char>, p: nat)
    requires p <= |y|
    ensures SplitFrom(x + y, seps, |x| + p) == SplitFrom(y, seps, p)
    decreases |y| - p
  {
    var s := x + y;
    if p == |y| {
      assert SplitFrom(s, seps, |s|) == [];
    } else if y[p] in seps {
      assert s[|x| + p] == y[p];
      SplitSkipsSeparator(s, seps, |x| + p);
      SplitSkipsSeparator(y, seps, p);
      SplitFromShift(x, y, seps, p + 1);
    } else {
      var q := RunEnd(y, seps, p);
      SplitTakesRun(y, seps, p, q);
      ShiftRun(x, y, seps, p, q);
      SplitFromShift(x, y, seps, q);
    }
  }

  /** A token followed by a separator is split off the front of the line. */
  lemma SplitTokenThenSeparator(t: string, c: char, rest: string, seps: set<char>)
    requires c in seps && t != [] && NoSeparator(t, seps)
    ensures Split(t + [c] + rest, seps) == [t] + Split(rest, seps)
  {
    var line := (t + [c]) + rest;
    assert line[..|t|] == t && line[|t|] == c;
    SplitAtSeparator(line, seps, 0, |t|);
    SplitFromShift(t + [c], rest, seps, 0);
  }

  /** The tokens written back out with one space between them. */
  function Join(toks: seq<string>): (r: string)
  {
    if toks == [] then []
    else if |toks| == 1 then toks[0]
    else toks[0] + [' '] + Join(toks[1..])
  }

  /** Splitting undoes joining with spaces: the tokens are recovered exactly. */
  lemma {:induction false} SplitJoin(toks: seq<string>, seps: set<char>)
    requires ' ' in seps && WellFormed(toks, seps)
    ensures Split(Join(toks), seps) == toks
  {
    if toks == [] {
    } else if |toks| == 1 {
      SplitAtEnd(toks[0], seps, 0);
      assert toks[0][0..] == toks[0];
    } else {
      var tail := toks[1..];
      assert WellFormed(tail, seps) by {
        forall k | 0 <= k < |tail| ensures tail[k] != [] && NoSeparator(tail[k], seps) {
          assert tail[k] == toks[k + 1];
        }
      }
      SplitJoin(tail, seps);
      SplitTokenThenSeparator(toks[0], ' ', Join(tail), seps);
    }
  }

  /**
   * A line made only of separators has no tokens.  No proof is needed: the
   * contract of `SkipFrom` already puts the first non-separator at the end.
   */
  lemma SplitAllSeparators(s: string, seps: set<char>)
    requires forall i :: 0 <= i < |s| ==> s[i] in seps
    ensures Split(s, seps) == []
  {
  }

  /** A run of `x` that ends at a separator or at the end of `x` is a token of `x + y` as well. */
  lemma ConcatRun(x: string, y: string, seps: set<char>, p: nat, q: nat)
    requires p < q <= |x| && forall i :: p <= i < q ==> x[i] !in seps
    requires (q == |x| || x[q] in seps) && (y == [] || y[0] in seps)
    ensures SplitFrom(x + y, seps, p) == [x[p..q]] + SplitFrom(x + y, seps, q)
  {
    var s := x + y;
    forall i | p <= i < q
      ensures s[i] !in seps
    {
      assert s[i] == x[i];
    }
    assert q == |s| || s[q] in seps by {
      if q < |x| {
        assert s[q] == x[q];
      } else if y != [] {
        assert s[q] == y[0];
      }
    }
    SplitTakesRun(s, seps, p, q);
    assert s[p..q] == x[p..q];
  }

  /**
   * When `y` starts with a separator (or is empty), no token straddles the
   * border: the tokens of `x + y` are those of `x` followed by those of `y`.
   */
  lemma {:induction false} SplitFromConcat(x: string, y: string, seps: set<char>, p: nat)
    requires p <= |x| && (y == [] || y[0] in seps)
    ensures SplitFrom(x + y, seps, p) == SplitFrom(x, seps, p) + Split(y, seps)
    decreases |x| - p
  {
    var s := x + y;
    if p == |x| {
      assert SkipFrom(x, seps, p) == |x|;
      SplitFromShift(x, y, seps, 0);
    } else if x[p] in seps {
      assert s[p] == x[p];
      SplitSkipsSeparator(s, seps, p);
      SplitSkipsSeparator(x, seps, p);
      SplitFromConcat(x, y, seps, p + 1);
    } else {
      var q := RunEnd(x, seps, p);
      SplitTakesRun(x, seps, p, q);
      ConcatRun(x, y, seps, p, q);
      SplitFromConcat(x, y, seps, q);
    }
  }

  /** Cutting a line just before a separator splits its tokens at the same place. */
  lemma SplitConcat(x: string, y: string, seps: set<char>)
    requires y == [] || y[0] in seps
    ensures Split(x + y, seps) == Split(x, seps) + Split(y, seps)
  {
    SplitFromConcat(x, y, seps, 0);
  }

  /** Two separator sets that agree on every character of `s` split it the same way. */
  lemma {:induction false} SplitFromAgrees(s: string, a: set<char>, b: set<char>, p: nat)
    requires p <= |s| && forall i :: 0 <= i < |s| ==> (s[i] in a <==> s[i] in b)
    ensures SplitFrom(s, a, p) == SplitFrom(s, b, p)
    decreases |s| - p
  {
    if p < |s| {
      if s[p] in a {
        SplitSkipsSeparator(s, a, p);
        SplitSkipsSeparator(s, b, p);
        SplitFromAgrees(s, a, b, p + 1);
      } else {
        var q := RunEnd(s, a, p);
        SplitTakesRun(s, a, p, q);
        SplitTakesRun(s, b, p, q);
        SplitFromAgrees(s, a, b, q);
      }
    }
  }

  /** On a line without carriage returns the first pass of parseCommand finds the tokens of `Split`. */
  lemma FirstPassAgreesWithoutCR(s: string)
    requires '\r' !in s
    ensures Split(s, FirstPassSeparators) == Split(s, Separators)
  {
    assert forall i :: 0 <= i < |s| ==> s[i] != '\r';
    SplitFromAgrees(s, FirstPassSeparators, Separators, 0);
  }

  /**
   * The second pass of parseCommand as written (separators with carriage
   * return) stays inside the buffers the first pass allocated (separators
   * without it): it fills no more slots, and no token is longer than its buffer.
   */
  predicate SecondPassFits(s: string)
  {
    var first := Split(s, FirstPassSeparators);
    var second := Split(s, Separators);
    |second| <= |first| && forall k :: 0 <= k < |second| ==> |second[k]| <= |first[k]|
  }

  /** Without a carriage return the two passes as written agree, so the second pass fits. */
  lemma SecondPassFitsWithoutCR(s: string)
    requires '\r' !in s
    ensures SecondPassFits(s)
  {
    FirstPassAgreesWithoutCR(s);
  }

  /** Two tokens separated by a space. */
  lemma SplitTwoTokens(y: string, z: string, seps: set<char>)
    requires ' ' in seps && y != [] && z != [] && NoSeparator(y, seps) && NoSeparator(z, seps)
    ensures Split(y + [' '] + z, seps) == [y, z]
  {
    SplitTokenThenSeparator(y, ' ', z, seps);
    SplitAtEnd(z, seps, 0);
    assert z[0..] == z;
  }

  /** The first pass as written keeps a carriage return inside its token. */
  lemma FirstPassKeepsCR(x: string, y: string, z: string)
    requires x != [] && z != []
    requires NoSeparator(x, Separators) && NoSeparator(y, Separators) && NoSeparator(z, Separators)
    ensures Split(x + ['\r'] + y + [' '] + z, FirstPassSeparators) == [x + ['\r'] + y, z]
  {
    var f := FirstPassSeparators;
    var xy := x + ['\r'] + y;
    assert NoSeparator(xy, f) by {
      forall i | 0 <= i < |xy| ensures xy[i] !in f {
        if i < |x| {
          assert xy[i] == x[i];
        } else if i > |x| {
          assert xy[i] == y[i - |x| - 1];
        }
      }
    }
    assert NoSeparator(z, f);
    SplitTwoTokens(xy, z, f);
  }

  /** The second pass as written ends a token at a carriage return. */
  lemma SecondPassSplitsAtCR(x: string, y: string, z: string)
    requires x != [] && y != [] && z != []
    requires NoSeparator(x, Separators) && NoSeparator(y, Separators) && NoSeparator(z, Separators)
    ensures Split(x + ['\r'] + y + [' '] + z, Separators) == [x, y, z]
  {
    var rest := y + [' '] + z;
    assert x + ['\r'] + y + [' '] + z == x + ['\r'] + rest;
    SplitTokenThenSeparator(x, '\r', rest, Separators);
    SplitTwoTokens(y, z, Separators);
  }

  /**
   * With a carriage return inside a token the two passes as written disagree.
   * For a line `x\ry z` (tokens `x`, `y`, `z` free of separators), the first
   * pass allocates two buffers, for `x\ry` and `z`, while the second pass
   * writes three tokens: `y` into the buffer sized for `z`, and `z` into a
   * slot that was never allocated.  "a\rbcd e" is one such line.
   */
  lemma CarriageReturnOverrun(x: string, y: string, z: string)
    requires x != [] && y != [] && z != []
    requires NoSeparator(x, Separators) && NoSeparator(y, Separators) && NoSeparator(z, Separators)
    ensures |Split(x + ['\r'] + y + [' '] + z, Separators)| > |Split(x + ['\r'] + y + [' '] + z, FirstPassSeparators)|
    ensures !SecondPassFits(x + ['\r'] + y + [' '] + z)
  {
    FirstPassKeepsCR(x, y, z);
    SecondPassSplitsAtCR(x, y, z);
  }

  /** The first pass as written makes a lone carriage return between spaces a token of its own. */
  lemma FirstPassKeepsLoneCR(x: string, z: string)
    requires x != [] && z != []
    requires NoSeparator(x, Separators) && NoSeparator(z, Separators)
    ensures Split(x + [' ', '\r', ' '] + z, FirstPassSeparators) == [x, ['\r'], z]
  {
    var f := FirstPassSeparators;
    var rest := ['\r'] + [' '] + z;
    assert x + [' ', '\r', ' '] + z == x + [' '] + rest;
    assert NoSeparator(z, f);
    SplitTwoTokens(['\r'], z, f);
    SplitTokenThenSeparator(x, ' ', rest, f);
  }

  /** The second pass as written skips a lone carriage return with the spaces around it. */
  lemma SecondPassSkipsLoneCR(x: string, z: string)
    requires x != [] && z != []
    requires NoSeparator(x, Separators) && NoSeparator(z, Separators)
    ensures Split(x + [' ', '\r', ' '] + z, Separators) == [x, z]
  {
    var rest := ['\r', ' '] + z;
    assert x + [' ', '\r', ' '] + z == x + [' '] + rest;
    SplitSkipsSeparator(rest, Separators, 0);
    SplitSkipsSeparator(rest, Separators, 1);
    SplitFromShift(['\r', ' '], z, Separators, 0);
    SplitAtEnd(z, Separators, 0);
    assert z[0..] == z;
    SplitTokenThenSeparator(x, ' ', rest, Separators);
  }

  /**
   * A carriage return standing alone between spaces breaks the second pass
   * too.  For a line `x \r z` (tokens `x` and `z` free of separators, `z`
   * at least two characters long), the first pass allocates three buffers,
   * for `x`, for the lone carriage return (two bytes) and for `z`, while the
   * second pass writes `z` and its NUL into the two-byte buffer.
   * "a \r bcd" is one such line.
   */
  lemma LoneCarriageReturnOverrun(x: string, z: string)
    requires x != [] && |z| >= 2
    requires NoSeparator(x, Separators) && NoSeparator(z, Separators)
    ensures Split(x + [' ', '\r', ' '] + z, FirstPassSeparators) == [x, ['\r'], z]
    ensures Split(x + [' ', '\r', ' '] + z, Separators) == [x, z]
    ensures !SecondPassFits(x + [' ', '\r', ' '] + z)
  {
    FirstPassKeepsLoneCR(x, z);
    SecondPassSkipsLoneCR(x, z);
    // token 1 of the second pass is longer than buffer 1 of the first
    var line := x + [' ', '\r', ' '] + z;
    assert |Split(line, Separators)[1]| > |Split(line, FirstPassSeparators)[1]|;
  }
}
