/** The line splitter on a child process's output (`wireStream` in scripts/dev.ts): a buffer
    that is consumed line by line as chunks arrive. */
module LineSplitter {
  import opened Lists
  import opened Text

  function Last<T>(s: seq<T>): T
    requires |s| > 0
  {
    s[|s| - 1]
  }

  function IndexOfNewline(s: string): (i: int)
    ensures -1 <= i < |s|
    ensures i >= 0 ==> s[i] == '\n'
    ensures forall k :: 0 <= k < (if i < 0 then |s| else i) ==> s[k] != '\n'
  {
    if s == [] then -1
    else if s[0] == '\n' then 0
    else
      var i := IndexOfNewline(s[1..]);
      if i < 0 then -1 else i + 1
  }

  class Splitter {
    var buffer: string
    var emitted: seq<string>

    constructor ()
      ensures buffer == "" && emitted == []
    {
      buffer := "";
      emitted := [];
    }

    method OnData(chunk: string)
      modifies this
      ensures State(buffer, emitted) == Fed(State(old(buffer), old(emitted)), chunk)
    {
      buffer := buffer + chunk;
      var nlIdx := IndexOfNewline(buffer);
      while nlIdx != -1
        invariant nlIdx == IndexOfNewline(buffer)
        invariant emitted + Split(buffer, '\n') == old(emitted) + Split(old(buffer) + chunk, '\n')
        decreases |buffer|
      {
        var line := buffer[..nlIdx];
        assert buffer == line + ['\n'] + buffer[nlIdx + 1..];
        SplitAtFirst(line, buffer[nlIdx + 1..], '\n');
        ghost var rest := Split(buffer[nlIdx + 1..], '\n');
        assert emitted + ([line] + rest) == (emitted + [line]) + rest;
        buffer := buffer[nlIdx + 1..];
        emitted := emitted + [line];
        nlIdx := IndexOfNewline(buffer);
      }
      SplitWord(buffer, '\n');
      LastPartIsBuffered(old(buffer), old(emitted), chunk, State(buffer, emitted));
    }

    method OnEnd()
      modifies this`emitted
      ensures emitted == old(emitted) + if |buffer| > 0 then [buffer] else []
    {
      if |buffer| > 0 {
        emitted := emitted + [buffer];
      }
    }
  }

  // ------------------------------------------------------------ any way of cutting the stream

  datatype State = State(buffer: string, emitted: seq<string>)

  /** What one chunk does: the complete lines are emitted, the last part stays in the buffer. */
  function Fed(s: State, chunk: string): State {
    var parts := Split(s.buffer + chunk, '\n');
    State(Last(parts), s.emitted + parts[..|parts| - 1])
  }

  lemma LastPartIsBuffered(buffer: string, emitted: seq<string>, chunk: string, next: State)
    requires next.emitted + [next.buffer] == emitted + Split(buffer + chunk, '\n')
    ensures next == Fed(State(buffer, emitted), chunk)
  {
    var all := emitted + Split(buffer + chunk, '\n');
    assert Last(all) == next.buffer && all[..|all| - 1] == next.emitted;
    assert all[..|all| - 1] == emitted + Split(buffer + chunk, '\n')[..|Split(buffer + chunk, '\n')| - 1];
  }

  function Concat(chunks: seq<string>): string {
    if chunks == [] then [] else Concat(chunks[..|chunks| - 1]) + Last(chunks)
  }

  function AfterChunks(chunks: seq<string>): State {
    Run(State("", []), chunks, Fed)
  }

  /** The lines emitted once the stream has ended. */
  function Emission(chunks: seq<string>): seq<string> {
    var s := AfterChunks(chunks);
    s.emitted + if |s.buffer| > 0 then [s.buffer] else []
  }

  /** Splitting more text only splits the last part further. */
  lemma {:induction false} SplitContinues(a: string, b: string)
    ensures var parts := Split(a, '\n');
            Split(a + b, '\n') == parts[..|parts| - 1] + Split(Last(parts) + b, '\n')
    decreases |a|
  {
    var i := IndexOfNewline(a);
    if i < 0 {
      SplitWord(a, '\n');
    } else {
      var w, r := a[..i], a[i + 1..];
      assert a == w + ['\n'] + r && a + b == w + ['\n'] + (r + b);
      SplitAtFirst(w, r, '\n');
      SplitAtFirst(w, r + b, '\n');
      SplitContinues(r, b);
      Prepended(w, Split(r, '\n'), Split(Last(Split(r, '\n')) + b, '\n'));
    }
  }

  lemma Prepended(w: string, rest: seq<string>, more: seq<string>)
    requires |rest| > 0
    ensures var parts := [w] + rest;
            Last(parts) == Last(rest) && [w] + (rest[..|rest| - 1] + more) == parts[..|parts| - 1] + more
  {
  }

  function StateOf(parts: seq<string>): State
    requires |parts| > 0
  {
    State(Last(parts), parts[..|parts| - 1])
  }

  lemma FedParts(parts: seq<string>, more: seq<string>)
    requires |parts| > 0 && |more| > 0
    ensures var all := parts[..|parts| - 1] + more;
            StateOf(all) == State(Last(more), parts[..|parts| - 1] + more[..|more| - 1])
  {
  }

  /** However the stream is cut: what has been emitted and what is buffered are the parts of
      the whole text. */
  lemma {:induction false} ChunksDoNotShow(chunks: seq<string>)
    ensures AfterChunks(chunks) == StateOf(Split(Concat(chunks), '\n'))
  {
    if chunks != [] {
      var n := |chunks| - 1;
      ChunksDoNotShow(chunks[..n]);
      var parts := Split(Concat(chunks[..n]), '\n');
      SplitContinues(Concat(chunks[..n]), chunks[n]);
      FedParts(parts, Split(Last(parts) + chunks[n], '\n'));
      assert AfterChunks(chunks) == Fed(AfterChunks(chunks[..n]), chunks[n]);
    }
  }

  /** The lines of a text, a final newline closing the last one. */
  function LinesOfText(text: string): seq<string> {
    var parts := Split(text, '\n');
    if Last(parts) == [] then parts[..|parts| - 1] else parts
  }

  /** At the end the lines are those of the whole text, however it was cut. */
  lemma EmissionIsLinesOfText(chunks: seq<string>)
    ensures Emission(chunks) == LinesOfText(Concat(chunks))
  {
    ChunksDoNotShow(chunks);
    var parts := Split(Concat(chunks), '\n');
    assert parts == parts[..|parts| - 1] + [Last(parts)];
  }

  /** Nothing is lost, duplicated or reordered on the way: the emitted lines and the buffer
      are, joined by newlines, the text received so far, and no line contains a newline. */
  lemma NothingIsLost(chunks: seq<string>)
    ensures var s := AfterChunks(chunks);
            && Join(s.emitted + [s.buffer], "\n") == Concat(chunks)
            && '\n' !in s.buffer
            && forall k :: 0 <= k < |s.emitted| ==> '\n' !in s.emitted[k]
  {
    ChunksDoNotShow(chunks);
    var s, parts := AfterChunks(chunks), Split(Concat(chunks), '\n');
    JoinOfSplit(Concat(chunks), '\n');
    assert s.emitted + [s.buffer] == parts;
    SplitPartsAvoid(Concat(chunks), '\n', |parts| - 1);
    forall k | 0 <= k < |s.emitted| ensures '\n' !in s.emitted[k] {
      SplitPartsAvoid(Concat(chunks), '\n', k);
    }
  }

  lemma SameTextSameLines(a: seq<string>, b: seq<string>)
    requires Concat(a) == Concat(b)
    ensures Emission(a) == Emission(b)
  {
    EmissionIsLinesOfText(a);
    EmissionIsLinesOfText(b);
  }
}
