/** Newline-delimited framing: a byte stream as its finished lines and what follows the last of them. */
module Framing {
  import opened Wrappers
  import opened Sequences

  type Bytes = seq<bv8>

  const NEWLINE: bv8 := 10

  /** `firstIndex(of:)` a newline. */
  function FirstNewline(b: Bytes): (r: Option<nat>)
    ensures r.Some? ==> r.value < |b| && b[r.value] == NEWLINE && forall i :: 0 <= i < r.value ==> b[i] != NEWLINE
    ensures r.None? ==> forall i :: 0 <= i < |b| ==> b[i] != NEWLINE
  {
    if b == [] then None
    else if b[0] == NEWLINE then Some(0)
    else match FirstNewline(b[1..]) case None => None case Some(i) => Some(i + 1)
  }

  function Lines(b: Bytes): seq<Bytes>
    decreases |b|
  {
    match FirstNewline(b)
    case None => []
    case Some(n) => [b[..n]] + Lines(b[n + 1..])
  }

  function Unfinished(b: Bytes): Bytes
    decreases |b|
  {
    match FirstNewline(b)
    case None => b
    case Some(n) => Unfinished(b[n + 1..])
  }

  /** Lines written out, each with its newline. */
  function Written(lines: seq<Bytes>): Bytes {
    if lines == [] then [] else lines[0] + [NEWLINE] + Written(lines[1..])
  }

  predicate HasNoNewline(b: Bytes) {
    forall i | 0 <= i < |b| :: b[i] != NEWLINE
  }

  /** The lines and the rest are the stream's only reading: they have no newlines, and make it up again. */
  lemma {:induction false} LinesMakeUpStream(b: Bytes)
    ensures Written(Lines(b)) + Unfinished(b) == b
    ensures HasNoNewline(Unfinished(b)) && forall k :: 0 <= k < |Lines(b)| ==> HasNoNewline(Lines(b)[k])
    decreases |b|
  {
    if FirstNewline(b).Some? {
      var n := FirstNewline(b).value;
      LinesMakeUpStream(b[n + 1..]);
      FirstLineMakesUp(b, n, Lines(b[n + 1..]), Unfinished(b[n + 1..]));
    }
  }

  lemma FirstLineMakesUp(b: Bytes, n: nat, lines: seq<Bytes>, rest: Bytes)
    requires n < |b| && b[n] == NEWLINE && Written(lines) + rest == b[n + 1..]
    ensures Written([b[..n]] + lines) + rest == b
  {
    assert ([b[..n]] + lines)[1..] == lines;
    assert b == b[..n] + [NEWLINE] + b[n + 1..];
    Associative(b[..n] + [NEWLINE], Written(lines), rest);
  }

  lemma FirstNewlineIs(b: Bytes, n: nat)
    requires n < |b| && b[n] == NEWLINE && forall i :: 0 <= i < n ==> b[i] != NEWLINE
    ensures FirstNewline(b) == Some(n)
  {
  }

  lemma {:induction false} StreamHasTheseLines(lines: seq<Bytes>, rest: Bytes)
    requires HasNoNewline(rest) && forall k :: 0 <= k < |lines| ==> HasNoNewline(lines[k])
    ensures Lines(Written(lines) + rest) == lines && Unfinished(Written(lines) + rest) == rest
  {
    var b := Written(lines) + rest;
    if lines == [] {
      assert b == rest;
    } else {
      var n := |lines[0]|;
      assert b == lines[0] + [NEWLINE] + (Written(lines[1..]) + rest);
      assert b[..n] == lines[0] && b[n + 1..] == Written(lines[1..]) + rest;
      FirstNewlineIs(b, n);
      StreamHasTheseLines(lines[1..], rest);
    }
  }

  /** More bytes are read on from what was unfinished; nothing before them is read differently. */
  lemma {:induction false} LinesOfMore(a: Bytes, b: Bytes)
    ensures Lines(a + b) == Lines(a) + Lines(Unfinished(a) + b)
    ensures Unfinished(a + b) == Unfinished(Unfinished(a) + b)
    decreases |a|
  {
    match FirstNewline(a)
    case None =>
    case Some(n) =>
      assert (a + b)[..n] == a[..n] && (a + b)[n + 1..] == a[n + 1..] + b;
      FirstNewlineIs(a + b, n);
      LinesOfMore(a[n + 1..], b);
      Associative([a[..n]], Lines(a[n + 1..]), Lines(Unfinished(a[n + 1..]) + b));
  }

  // ---------------------------------------------------------------- commands

  /** The command a line is: one that decodes as text and is not blank. */
  function CommandOf(line: Bytes, decode: Bytes -> Option<string>): seq<string> {
    match decode(line) case None => [] case Some(text) => [text]
  }

  function Commands(lines: seq<Bytes>, decode: Bytes -> Option<string>): seq<string> {
    if lines == [] then [] else CommandOf(lines[0], decode) + Commands(lines[1..], decode)
  }

  lemma {:induction false} CommandsAppend(a: seq<Bytes>, b: seq<Bytes>, decode: Bytes -> Option<string>)
    ensures Commands(a + b, decode) == Commands(a, decode) + Commands(b, decode)
  {
    if a == [] {
      assert a + b == b;
    } else {
      assert (a + b)[0] == a[0] && (a + b)[1..] == a[1..] + b;
      CommandsAppend(a[1..], b, decode);
      Associative(CommandOf(a[0], decode), Commands(a[1..], decode), Commands(b, decode));
    }
  }

  lemma CommandsOfFirst(line: Bytes, lines: seq<Bytes>, decode: Bytes -> Option<string>)
    ensures Commands([line] + lines, decode) == CommandOf(line, decode) + Commands(lines, decode)
  {
    assert ([line] + lines)[1..] == lines;
  }

  /** The commands a stream holds so far. */
  function CommandsIn(stream: Bytes, decode: Bytes -> Option<string>): seq<string> {
    Commands(Lines(stream), decode)
  }

  /** The first finished line of a stream is its first command, if it is one; the rest follow. */
  lemma CommandsUnfold(b: Bytes, n: nat, decode: Bytes -> Option<string>)
    requires FirstNewline(b) == Some(n)
    ensures CommandsIn(b, decode) == CommandOf(b[..n], decode) + CommandsIn(b[n + 1..], decode)
  {
    var line, rest := b[..n], Lines(b[n + 1..]);
    assert Lines(b) == [line] + rest;
    CommandsOfFirst(line, rest, decode);
  }

  lemma CommandsOfMore(a: Bytes, b: Bytes, decode: Bytes -> Option<string>)
    ensures CommandsIn(a + b, decode) == CommandsIn(a, decode) + CommandsIn(Unfinished(a) + b, decode)
  {
    LinesOfMore(a, b);
    CommandsAppend(Lines(a), Lines(Unfinished(a) + b), decode);
  }
}
