/** In-place updates of `.env` texts (src/core/dx/env-file-update.ts): the planner, what a
    reader finds afterwards, and what repeating an update does. */
module EnvFile {
  import opened Lists
  import opened Text

  // ------------------------------------------------------------ lines

  function ChopReturn(line: string): string {
    if line != [] && line[|line| - 1] == '\r' then line[..|line| - 1] else line
  }

  /** `s.split(/\r?\n/)` */
  function SplitLines(s: string): (lines: seq<string>)
    ensures |lines| == |Split(s, '\n')|
  {
    var parts := Split(s, '\n');
    seq(|parts|, i requires 0 <= i < |parts| => if i < |parts| - 1 then ChopReturn(parts[i]) else parts[i])
  }

  predicate EndsWithNewline(s: string) {
    s != [] && s[|s| - 1] == '\n'
  }

  predicate KeepsNewline(current: string) {
    current == [] || EndsWithNewline(current)
  }

  /** The lines of a file, without the empty one behind a final newline. */
  function LinesOf(current: string): seq<string> {
    if current == [] then []
    else
      var lines := SplitLines(current);
      if EndsWithNewline(current) && lines[|lines| - 1] == [] then lines[..|lines| - 1] else lines
  }

  function TextOf(lines: seq<string>, newline: bool): string {
    Join(lines, "\n") + if newline then "\n" else ""
  }

  // ------------------------------------------------------------ lines and their breaks

  function Rejoined(lines: seq<string>, breaks: seq<string>): string
    requires |lines| == |breaks|
  {
    if lines == [] then "" else lines[0] + breaks[0] + Rejoined(lines[1..], breaks[1..])
  }

  /** No newline inside a line, and a carriage return in front of the newline is part of the
      break. */
  predicate IsEnded(line: string, brk: string) {
    && '\n' !in line
    && (brk == "\r\n" || (brk == "\n" && (line == "" || line[|line| - 1] != '\r')))
  }

  /** Lines with the breaks that end them; the end of the text ends the last one, unless that
      is empty. */
  predicate AreLines(lines: seq<string>, breaks: seq<string>) {
    && |lines| == |breaks|
    && forall k :: 0 <= k < |lines| ==>
         IsEnded(lines[k], breaks[k]) || (k == |lines| - 1 && breaks[k] == "" && lines[k] != "" && '\n' !in lines[k])
  }

  lemma {:induction false} PartsRejoin(parts: seq<string>, lines: seq<string>, breaks: seq<string>)
    requires |parts| == |lines| == |breaks| > 0
    requires forall k :: 0 <= k < |parts| - 1 ==> lines[k] + breaks[k] == parts[k] + "\n"
    requires lines[|parts| - 1] == parts[|parts| - 1] && breaks[|parts| - 1] == ""
    ensures Rejoined(lines, breaks) == Join(parts, "\n")
  {
    if |parts| == 1 {
      assert Rejoined(lines[1..], breaks[1..]) == "";
      assert lines[0] + breaks[0] + "" == parts[0];
    } else {
      PartsRejoin(parts[1..], lines[1..], breaks[1..]);
    }
  }

  lemma {:induction false} WithoutEmptyLast(lines: seq<string>, breaks: seq<string>)
    requires |lines| == |breaks| > 0 && lines[|lines| - 1] == "" && breaks[|lines| - 1] == ""
    ensures Rejoined(lines, breaks) == Rejoined(lines[..|lines| - 1], breaks[..|lines| - 1])
  {
    var n := |lines| - 1;
    if n > 0 {
      WithoutEmptyLast(lines[1..], breaks[1..]);
      assert lines[1..][..n - 1] == lines[..n][1..] && breaks[1..][..n - 1] == breaks[..n][1..];
    }
  }

  function BreakOf(part: string): string {
    if EndsInReturn(part) then "\r\n" else "\n"
  }

  lemma {:induction false} SplitEndsEmpty(s: string, sep: char)
    requires s != [] && s[|s| - 1] == sep
    ensures var parts := Split(s, sep); parts[|parts| - 1] == [] && |parts| > 1
  {
    if |s| > 1 {
      SplitEndsEmpty(s[1..], sep);
    } else {
      assert Split(s[1..], sep) == [[]];
    }
  }

  function BreaksOf(parts: seq<string>): seq<string> {
    seq(|parts|, k requires 0 <= k < |parts| => if k < |parts| - 1 then BreakOf(parts[k]) else "")
  }

  lemma PartAndBreak(part: string)
    requires '\n' !in part
    ensures ChopReturn(part) + BreakOf(part) == part + "\n" && IsEnded(ChopReturn(part), BreakOf(part))
  {
    if EndsInReturn(part) {
      assert part == part[..|part| - 1] + "\r";
    }
  }

  lemma PartsAreEnded(parts: seq<string>, lines: seq<string>)
    requires |lines| == |parts| && forall k :: 0 <= k < |parts| - 1 ==> lines[k] == ChopReturn(parts[k])
    requires forall k :: 0 <= k < |parts| ==> '\n' !in parts[k]
    ensures forall k :: 0 <= k < |parts| - 1 ==>
              lines[k] + BreaksOf(parts)[k] == parts[k] + "\n" && IsEnded(lines[k], BreaksOf(parts)[k])
  {
    forall k | 0 <= k < |parts| - 1
      ensures lines[k] + BreaksOf(parts)[k] == parts[k] + "\n" && IsEnded(lines[k], BreaksOf(parts)[k])
    {
      PartAndBreak(parts[k]);
    }
  }

  lemma SplitLinesRejoin(current: string) returns (parts: seq<string>, lines: seq<string>, breaks: seq<string>)
    ensures parts == Split(current, '\n') && lines == SplitLines(current)
    ensures |parts| == |lines| == |breaks| > 0 && Rejoined(lines, breaks) == current
    ensures forall k :: 0 <= k < |parts| - 1 ==> IsEnded(lines[k], breaks[k])
    ensures var n := |parts| - 1; lines[n] == parts[n] && '\n' !in parts[n] && breaks[n] == ""
  {
    parts, lines := Split(current, '\n'), SplitLines(current);
    breaks := BreaksOf(parts);
    forall k | 0 <= k < |parts| ensures '\n' !in parts[k] {
      SplitPartsAvoid(current, '\n', k);
    }
    PartsAreEnded(parts, lines);
    PartsRejoin(parts, lines, breaks);
    JoinOfSplit(current, '\n');
  }

  /** The lines of a file are the texts between its line breaks: they and the breaks make up
      the file. */
  lemma LinesAreTheText(current: string) returns (breaks: seq<string>)
    ensures AreLines(LinesOf(current), breaks) && Rejoined(LinesOf(current), breaks) == current
  {
    breaks := [];
    if current != "" {
      var parts, lines, all := SplitLinesRejoin(current);
      if EndsWithNewline(current) {
        SplitEndsEmpty(current, '\n');
        WithoutEmptyLast(lines, all);
        breaks := all[..|all| - 1];
      } else {
        LastPartOfSplit(current, '\n');
        breaks := all;
      }
    }
  }

  // ------------------------------------------------------------ assignments

  predicate IsKeyChar(c: char) {
    'A' <= c <= 'Z' || '0' <= c <= '9' || c == '_'
  }

  predicate IsKey(key: string) {
    key != [] && forall k :: 0 <= k < |key| ==> IsKeyChar(key[k])
  }

  predicate IsLineTerminator(c: char) {
    c == '\n' || c == '\r' || c == '\U{2028}' || c == '\U{2029}'
  }

  predicate OnOneLine(s: string) {
    forall k :: 0 <= k < |s| ==> !IsLineTerminator(s[k])
  }

  function KeyLength(s: string): (n: nat)
    ensures n <= |s|
  {
    if s == [] || !IsKeyChar(s[0]) then 0 else 1 + KeyLength(s[1..])
  }

  /** The key a line assigns: a key, optional white space, `=`, and no line terminator after. */
  function AssignedKey(raw: string): Option<string> {
    var n := KeyLength(raw);
    var rest := TrimStart(raw[n..]);
    if n > 0 && rest != [] && rest[0] == '=' && OnOneLine(rest[1..]) then Some(raw[..n]) else None
  }

  predicate Assigns(raw: string, key: string) {
    !(raw != [] && raw[0] == '#') && AssignedKey(raw) == Some(key)
  }

  /** The first line that assigns the key; the number of lines when there is none. */
  function FirstAssignment(lines: seq<string>, key: string): (i: nat)
    ensures i <= |lines|
    ensures i < |lines| ==> Assigns(lines[i], key)
    ensures forall k :: 0 <= k < i ==> !Assigns(lines[k], key)
  {
    if lines == [] || Assigns(lines[0], key) then 0 else 1 + FirstAssignment(lines[1..], key)
  }

  // ------------------------------------------------------------ trailing comments

  datatype Quoting = Outside | InDouble | InSingle

  function NextQuoting(q: Quoting, c: char): Quoting {
    if c == '"' && q != InSingle then (if q == InDouble then Outside else InDouble)
    else if c == '\'' && q != InDouble then (if q == InSingle then Outside else InSingle)
    else q
  }

  /** The first `#` outside quotes; the length of the text when there is none. */
  function CommentFrom(s: string, q: Quoting): (i: nat)
    ensures i <= |s|
    ensures i < |s| ==> s[i] == '#'
  {
    if s == [] || (s[0] == '#' && q == Outside) then 0
    else 1 + CommentFrom(s[1..], NextQuoting(q, s[0]))
  }

  function QuotingAfter(s: string, q: Quoting): Quoting {
    if s == [] then q else QuotingAfter(s[1..], NextQuoting(q, s[0]))
  }

  predicate Blank(s: string) {
    forall k :: 0 <= k < |s| ==> s[k] == ' '
  }

  /** The single space kept in front of a comment, unless nothing but spaces precedes it. */
  function Gap(before: string): string {
    if Blank(before) then "" else " "
  }

  /** What follows `KEY=` after an update: the value and the old trailing comment, if any. */
  function Decorated(previous: string, value: string): string {
    var c := CommentFrom(previous, Outside);
    if c == |previous| then value else value + Gap(previous[..c]) + previous[c..]
  }

  function IndexOfEquals(s: string): (i: nat)
    ensures i <= |s|
    ensures i < |s| ==> s[i] == '='
  {
    if s == [] || s[0] == '=' then 0 else 1 + IndexOfEquals(s[1..])
  }

  function AfterEquals(raw: string): string {
    var e := IndexOfEquals(raw);
    if e < |raw| then raw[e + 1..] else []
  }

  function Updated(raw: string, key: string, value: string): string {
    key + "=" + Decorated(AfterEquals(raw), value)
  }

  // ------------------------------------------------------------ the planner

  datatype Action = Replaced | Appended

  datatype Plan = Plan(next: string, action: Action, lineNumber: nat)

  datatype Outcome = Planned(plan: Plan) | InvalidKey | InvalidValue

  const MARKER := "# Managed by /hub/features"

  predicate IsMarkerLine(line: string) {
    Trim(line) == MARKER
  }

  function Block(lines: seq<string>, key: string, value: string): seq<string> {
    (if |lines| > 0 && lines[|lines| - 1] != [] then [""] else [])
    + (if exists l :: l in lines && IsMarkerLine(l) then [] else [MARKER])
    + [key + "=" + value]
  }

  lemma BlockShape(lines: seq<string>, key: string, value: string)
    ensures var block := Block(lines, key, value);
            && 1 <= |block| <= 3
            && block[|block| - 1] == key + "=" + value
            && (forall k :: 0 <= k < |block| - 1 ==> block[k] == "" || block[k] == MARKER)
            && (|lines| > 0 && lines[|lines| - 1] != "" ==> block[0] == "")
  {
    var blank := if |lines| > 0 && lines[|lines| - 1] != [] then [""] else [];
    var marker := if exists l :: l in lines && IsMarkerLine(l) then [] else [MARKER];
    assert Block(lines, key, value) == blank + marker + [key + "=" + value];
  }

  lemma Appending(lines: seq<string>, block: seq<string>)
    requires block != []
    ensures lines <= lines + block && |lines + block| == |lines| + |block|
    ensures forall k :: 0 <= k < |block| ==> (lines + block)[|lines| + k] == block[k]
    ensures (lines + block)[|lines + block| - 1] == block[|block| - 1]
  {
  }

  /** The lines after the update. */
  function UpdatedLines(lines: seq<string>, key: string, value: string): seq<string> {
    var i := FirstAssignment(lines, key);
    if i < |lines| then lines[i := Updated(lines[i], key, value)] else lines + Block(lines, key, value)
  }

  function PlannedAction(lines: seq<string>, key: string): Action {
    if FirstAssignment(lines, key) < |lines| then Replaced else Appended
  }

  function PlannedLine(lines: seq<string>, key: string, value: string): nat {
    if FirstAssignment(lines, key) < |lines| then FirstAssignment(lines, key) + 1 else |UpdatedLines(lines, key, value)|
  }

  function PlanOf(current: string, key: string, value: string): Plan {
    var lines := LinesOf(current);
    Plan(TextOf(UpdatedLines(lines, key, value), KeepsNewline(current)),
         PlannedAction(lines, key), PlannedLine(lines, key, value))
  }

  method FindCommentStart(value: string) returns (i: int)
    ensures i == if CommentFrom(value, Outside) < |value| then CommentFrom(value, Outside) else -1
  {
    var inDouble, inSingle := false, false;
    var k := 0;
    while k < |value|
      invariant 0 <= k <= |value| && !(inDouble && inSingle)
      invariant CommentFrom(value, Outside) ==
                k + CommentFrom(value[k..], if inDouble then InDouble else if inSingle then InSingle else Outside)
    {
      var c := value[k];
      if c == '"' && !inSingle {
        inDouble := !inDouble;
      } else if c == '\'' && !inDouble {
        inSingle := !inSingle;
      } else if c == '#' && !inDouble && !inSingle {
        return k;
      }
      assert value[k..][1..] == value[k + 1..];
      k := k + 1;
    }
    i := -1;
  }

  method StripSurroundingSpaces(valueAndAfter: string, commentIdx: nat) returns (gap: string)
    requires commentIdx <= |valueAndAfter|
    ensures gap == Gap(valueAndAfter[..commentIdx])
  {
    var i := commentIdx - 1;
    while i >= 0 && valueAndAfter[i] == ' '
      invariant -1 <= i < commentIdx
      invariant forall k :: i < k < commentIdx ==> valueAndAfter[k] == ' '
    {
      i := i - 1;
    }
    if i >= 0 {
      assert valueAndAfter[..commentIdx][i] != ' ';
    }
    gap := if i >= 0 then " " else "";
  }

  method PreserveTrailingComment(originalLine: string, key: string, value: string) returns (line: string)
    ensures line == Updated(originalLine, key, value)
  {
    var newAssignment := key + "=" + value;
    var eqIdx := IndexOfEquals(originalLine);
    if eqIdx == |originalLine| { return newAssignment; }
    var valueAndAfter := originalLine[eqIdx + 1..];
    var commentIdx := FindCommentStart(valueAndAfter);
    if commentIdx < 0 { return newAssignment; }
    var gap := StripSurroundingSpaces(valueAndAfter, commentIdx);
    var trailing := valueAndAfter[commentIdx..];
    Regrouped(key + "=", value, gap, trailing);
    return newAssignment + gap + trailing;
  }

  lemma Regrouped(a: string, b: string, c: string, d: string)
    ensures a + b + c + d == a + (b + c + d)
  {
  }

  method PlanEnvFileUpdate(current: string, key: string, value: string) returns (r: Outcome)
    ensures var isKey := key != "" && forall c :: c in key ==> 'A' <= c <= 'Z' || '0' <= c <= '9' || c == '_';
            r == if !isKey then InvalidKey
                 else if '\n' in value then InvalidValue
                 else Planned(PlanOf(current, key, value))
  {
    KeyCharacters(key);
    if !IsKey(key) { return InvalidKey; }
    if '\n' in value { return InvalidValue; }
    var plan := PlanUpdate(current, key, value);
    return Planned(plan);
  }

  method PlanUpdate(current: string, key: string, value: string) returns (plan: Plan)
    ensures plan == PlanOf(current, key, value)
  {
    var stripped := LinesOf(current);
    var trailingNewline := KeepsNewline(current);
    var i := FindAssignment(stripped, key);
    ghost var updated := UpdatedLines(stripped, key, value);
    if i < |stripped| {
      var line := PreserveTrailingComment(stripped[i], key, value);
      assert updated == stripped[i := line];
      return Plan(TextOf(stripped[i := line], trailingNewline), Replaced, i + 1);
    }
    var block := ManagedBlock(stripped, key, value);
    assert updated == stripped + block;
    return Plan(TextOf(stripped + block, trailingNewline), Appended, |stripped| + |block|);
  }

  method FindAssignment(lines: seq<string>, key: string) returns (i: nat)
    ensures i == FirstAssignment(lines, key)
  {
    i := 0;
    while i < |lines|
      invariant 0 <= i <= |lines|
      invariant forall k :: 0 <= k < i ==> !Assigns(lines[k], key)
    {
      if Assigns(lines[i], key) { break; }
      i := i + 1;
    }
    FirstAssignmentIs(lines, key, i);
  }

  method ManagedBlock(lines: seq<string>, key: string, value: string) returns (block: seq<string>)
    ensures block == Block(lines, key, value)
  {
    block := [];
    if |lines| > 0 && lines[|lines| - 1] != [] { block := block + [""]; }
    if !(exists l :: l in lines && IsMarkerLine(l)) { block := block + [MARKER]; }
    block := block + [key + "=" + value];
  }

  lemma {:induction false} FirstAssignmentIs(lines: seq<string>, key: string, i: nat)
    requires i <= |lines|
    requires forall k :: 0 <= k < i ==> !Assigns(lines[k], key)
    requires i < |lines| ==> Assigns(lines[i], key)
    ensures FirstAssignment(lines, key) == i
  {
  }

  // ------------------------------------------------------------ what a reader finds

  predicate NoNewlines(lines: seq<string>) {
    forall k :: 0 <= k < |lines| ==> '\n' !in lines[k]
  }

  predicate EndsInReturn(line: string) {
    line != [] && line[|line| - 1] == '\r'
  }

  /** What becomes of written lines when they are read: a carriage return in front of a newline
      counts as part of the line break. */
  function Read(lines: seq<string>, newline: bool): seq<string> {
    seq(|lines|, k requires 0 <= k < |lines| => if k < |lines| - 1 || newline then ChopReturn(lines[k]) else lines[k])
  }

  lemma SplitLinesOfJoin(parts: seq<string>)
    requires |parts| > 0 && NoNewlines(parts)
    ensures SplitLines(Join(parts, "\n")) == Read(parts, false)
  {
    SplitOfJoin(parts, '\n');
  }

  lemma {:induction false} JoinWithEmptyTail(parts: seq<string>)
    requires |parts| > 0
    ensures Join(parts + [""], "\n") == Join(parts, "\n") + "\n"
  {
    if |parts| == 1 {
      assert (parts + [""])[1..] == [""];
    } else {
      JoinWithEmptyTail(parts[1..]);
      assert (parts + [""])[1..] == parts[1..] + [""];
    }
  }

  lemma {:induction false} JoinEndsAsLastPart(parts: seq<string>)
    requires |parts| > 0 && parts[|parts| - 1] != []
    ensures Join(parts, "\n") != []
    ensures var j, last := Join(parts, "\n"), parts[|parts| - 1]; j[|j| - 1] == last[|last| - 1]
  {
    if |parts| > 1 {
      JoinEndsAsLastPart(parts[1..]);
    }
  }

  lemma FinalNewlineReadsBack(lines: seq<string>)
    requires |lines| > 0 && NoNewlines(lines)
    ensures LinesOf(TextOf(lines, true)) == Read(lines, true)
    ensures KeepsNewline(TextOf(lines, true))
  {
    JoinWithEmptyTail(lines);
    SplitLinesOfJoin(lines + [""]);
    assert Read(lines + [""], false) == Read(lines, true) + [""];
  }

  /** Reading a written file back gives the lines as `Read` has them, and the final newline. */
  lemma WrittenLinesReadBack(lines: seq<string>, newline: bool)
    requires |lines| > 0 && NoNewlines(lines)
    requires LastLineWritten(lines, newline)
    ensures LinesOf(TextOf(lines, newline)) == Read(lines, newline)
    ensures KeepsNewline(TextOf(lines, newline)) == newline
  {
    if newline {
      FinalNewlineReadsBack(lines);
    } else {
      SplitLinesOfJoin(lines);
      JoinEndsAsLastPart(lines);
      assert TextOf(lines, false) == Join(lines, "\n");
      var last := lines[|lines| - 1];
      assert last[|last| - 1] in last;
    }
  }

  predicate LastLineWritten(lines: seq<string>, newline: bool) {
    |lines| > 0 && !newline ==> lines[|lines| - 1] != []
  }

  lemma {:induction false} KeyIsRead(key: string, rest: string)
    requires forall k :: 0 <= k < |key| ==> IsKeyChar(key[k])
    ensures KeyLength(key + "=" + rest) == |key|
    ensures IndexOfEquals(key + "=" + rest) == |key|
  {
    var s := key + "=" + rest;
    if key != [] {
      KeyIsRead(key[1..], rest);
      assert s[1..] == key[1..] + "=" + rest;
    }
  }

  /** A written assignment is recognised again exactly when its text is on one line. */
  lemma AssignmentIsRead(key: string, rest: string)
    requires IsKey(key)
    ensures Assigns(key + "=" + rest, key) <==> OnOneLine(rest)
    ensures AfterEquals(key + "=" + rest) == rest
  {
    var s := key + "=" + rest;
    KeyIsRead(key, rest);
    assert s[|key|..] == "=" + rest;
    assert s[..|key|] == key;
    assert ("=" + rest)[1..] == rest;
  }

  /** `raw` is the key, white space, `=` and a rest without a line terminator. */
  ghost predicate IsAssignment(raw: string, key: string, gap: string, rest: string) {
    && raw == key + gap + "=" + rest && AllSpace(gap)
    && forall c :: c in rest ==> c !in {'\n', '\r', '\U{2028}', '\U{2029}'}
  }

  lemma {:induction false} KeyEnds(key: string, s: string)
    requires (forall k :: 0 <= k < |key| ==> IsKeyChar(key[k])) && s != [] && !IsKeyChar(s[0])
    ensures KeyLength(key + s) == |key|
  {
    if key == [] {
      assert [] + s == s;
    } else {
      KeyEnds(key[1..], s);
      assert (key + s)[1..] == key[1..] + s;
    }
  }

  lemma AssignmentParts(raw: string, key: string) returns (gap: string, rest: string)
    requires Assigns(raw, key)
    ensures IsAssignment(raw, key, gap, rest) && IsKey(key)
  {
    var n := KeyLength(raw);
    KeyPrefix(raw);
    gap := TrimStartCut(raw[n..]);
    var behind := TrimStart(raw[n..]);
    rest := behind[1..];
    assert behind == "=" + rest;
    Reassembled(raw, n, gap, rest);
  }

  lemma Reassembled(raw: string, n: nat, gap: string, rest: string)
    requires n <= |raw| && raw[n..] == gap + ("=" + rest)
    ensures raw == raw[..n] + gap + "=" + rest
  {
    assert raw == raw[..n] + raw[n..];
  }

  lemma PartsAssign(raw: string, key: string, gap: string, rest: string)
    requires IsAssignment(raw, key, gap, rest) && IsKey(key)
    ensures Assigns(raw, key)
  {
    var behind := gap + ("=" + rest);
    assert raw == key + behind;
    KeyEnds(key, behind);
    assert raw[|key|..] == behind && raw[..|key|] == key;
    TrimStartBehind(gap, "=" + rest);
    assert ("=" + rest)[1..] == rest;
    forall k | 0 <= k < |rest| ensures !IsLineTerminator(rest[k]) {
      assert rest[k] in rest;
    }
  }

  /** What stands behind the `=` is the rest. */
  lemma RestIsAfterEquals(raw: string, key: string, gap: string, rest: string)
    requires IsAssignment(raw, key, gap, rest) && IsKey(key)
    ensures AfterEquals(raw) == rest
  {
    var n := |key| + |gap|;
    assert raw[n..] == "=" + rest;
    forall k | 0 <= k < n ensures raw[k] != '=' {
      assert raw[k] == if k < |key| then key[k] else gap[k - |key|];
    }
    AfterEqualsSkips(raw, n);
    assert ("=" + rest)[1..] == rest;
  }

  lemma KeyCharacters(key: string)
    ensures IsKey(key) <==> key != "" && forall c :: c in key ==> 'A' <= c <= 'Z' || '0' <= c <= '9' || c == '_'
  {
    if forall c :: c in key ==> 'A' <= c <= 'Z' || '0' <= c <= '9' || c == '_' {
      forall k | 0 <= k < |key| ensures IsKeyChar(key[k]) {
        assert key[k] in key;
      }
    }
  }

  /** A line assigns a key exactly when it is the key, white space, `=` and a rest on one line. */
  lemma AssignsExactlyWhen(raw: string, key: string)
    ensures Assigns(raw, key) <==>
            && key != "" && (forall c :: c in key ==> 'A' <= c <= 'Z' || '0' <= c <= '9' || c == '_')
            && exists gap, rest :: IsAssignment(raw, key, gap, rest)
  {
    KeyCharacters(key);
    if Assigns(raw, key) {
      var gap, rest := AssignmentParts(raw, key);
    } else if gap, rest :| IsKey(key) && IsAssignment(raw, key, gap, rest) {
      PartsAssign(raw, key, gap, rest);
    }
  }

  lemma AfterEqualsSkipsOne(s: string)
    requires s != [] && s[0] != '='
    ensures AfterEquals(s) == AfterEquals(s[1..])
  {
    var e := IndexOfEquals(s[1..]);
    if e < |s[1..]| {
      assert s[1..][e + 1..] == s[e + 2..];
    }
  }

  lemma {:induction false} AfterEqualsSkips(s: string, n: nat)
    requires n <= |s| && forall k :: 0 <= k < n ==> s[k] != '='
    ensures AfterEquals(s) == AfterEquals(s[n..])
  {
    if n == 0 {
      assert s[0..] == s;
    } else {
      AfterEqualsSkips(s, n - 1);
      AfterEqualsSkipsOne(s[n - 1..]);
      assert s[n - 1..][1..] == s[n..];
    }
  }

  lemma {:induction false} AfterEqualsTrims(s: string)
    ensures AfterEquals(s) == AfterEquals(TrimStart(s))
  {
    if s != [] && IsSpace(s[0]) {
      AfterEqualsTrims(s[1..]);
      AfterEqualsSkipsOne(s);
    }
  }

  lemma {:induction false} KeyPrefix(s: string)
    ensures forall k :: 0 <= k < KeyLength(s) ==> IsKeyChar(s[k])
  {
    if s != [] && IsKeyChar(s[0]) {
      KeyPrefix(s[1..]);
    }
  }

  /** Whatever stands behind the `=` of an assignment is on one line. */
  lemma AssignedTextOnOneLine(raw: string, key: string)
    requires Assigns(raw, key)
    ensures OnOneLine(AfterEquals(raw))
  {
    var n := KeyLength(raw);
    KeyPrefix(raw);
    AfterEqualsSkips(raw, n);
    AfterEqualsTrims(raw[n..]);
    var rest := TrimStart(raw[n..]);
    assert rest[0] == '=' && AfterEquals(rest) == rest[1..];
  }

  // ------------------------------------------------------------ which `#` starts a comment

  /** A quoted text, from its opening quote at the front to the same quote at `n`. */
  predicate IsQuoted(p: string, n: int) {
    0 < n < |p| && p[0] in {'"', '\''} && p[n] == p[0] && forall k :: 0 < k < n ==> p[k] != p[0]
  }

  /** Quoted texts, and between them characters that are neither a quote nor `#`. */
  ghost predicate QuotesClosed(p: string)
    decreases |p|
  {
    || p == ""
    || (p[0] !in {'"', '\'', '#'} && QuotesClosed(p[1..]))
    || exists n :: IsQuoted(p, n) && QuotesClosed(p[n + 1..])
  }

  /** Inside a quote nothing counts but its end. */
  lemma QuoteGoesOn(s: string, q: Quoting)
    requires q != Outside && s != [] && s[0] != Ending(q)
    ensures CommentFrom(s, q) == 1 + CommentFrom(s[1..], q) && QuotingAfter(s, q) == QuotingAfter(s[1..], q)
  {
  }

  lemma QuoteIsOver(s: string, q: Quoting)
    requires q != Outside && s != [] && s[0] == Ending(q)
    ensures CommentFrom(s, q) == 1 + CommentFrom(s[1..], Outside) && QuotingAfter(s, q) == QuotingAfter(s[1..], Outside)
  {
  }

  lemma {:induction false} QuoteEnds(s: string, q: Quoting) returns (m: nat)
    requires q != Outside
    ensures m <= |s| && forall k :: 0 <= k < m ==> s[k] != Ending(q)
    ensures m < |s| ==>
              && s[m] == Ending(q)
              && CommentFrom(s, q) == m + 1 + CommentFrom(s[m + 1..], Outside)
              && QuotingAfter(s, q) == QuotingAfter(s[m + 1..], Outside)
    ensures m == |s| ==> CommentFrom(s, q) == |s| && QuotingAfter(s, q) == q
  {
    if s == [] {
      m := 0;
    } else if s[0] == Ending(q) {
      m := 0;
      QuoteIsOver(s, q);
    } else {
      var n := QuoteEnds(s[1..], q);
      m := n + 1;
      QuoteGoesOn(s, q);
      if n < |s[1..]| {
        assert s[1..][n + 1..] == s[m + 1..];
      }
    }
  }

  lemma OnlyOneEnd(p: string, m: int)
    requires IsQuoted(p, m)
    ensures QuotesClosed(p) <==> QuotesClosed(p[m + 1..])
  {
    if n :| IsQuoted(p, n) && QuotesClosed(p[n + 1..]) {
      assert n == m;
    }
  }

  lemma NoEnd(p: string)
    requires p != "" && p[0] in {'"', '\''} && forall k :: 0 < k < |p| ==> p[k] != p[0]
    ensures !QuotesClosed(p)
  {
  }

  lemma QuotedFirst(p: string) returns (m: nat)
    requires p != "" && p[0] in {'"', '\''}
    ensures 0 < m <= |p|
    ensures m < |p| ==> IsQuoted(p, m) && (Clean(p) <==> Clean(p[m + 1..]))
    ensures m == |p| ==> !Clean(p) && forall k :: 0 < k < |p| ==> p[k] != p[0]
  {
    var n := QuoteEnds(p[1..], if p[0] == '"' then InDouble else InSingle);
    m := n + 1;
    forall k | 0 < k < m ensures p[k] != p[0] {
      assert p[k] == p[1..][k - 1];
    }
    if m < |p| {
      assert p[1..][n + 1..] == p[m + 1..];
    }
  }

  /** A text is clean exactly when all its quotes are closed and every `#` is quoted. */
  lemma {:induction false} CleanExactlyWhen(p: string)
    ensures Clean(p) <==> QuotesClosed(p)
    decreases |p|
  {
    if p == "" {
    } else if p[0] in {'"', '\''} {
      var m := QuotedFirst(p);
      if m < |p| {
        CleanExactlyWhen(p[m + 1..]);
        OnlyOneEnd(p, m);
      } else {
        NoEnd(p);
      }
    } else if p[0] != '#' {
      CleanExactlyWhen(p[1..]);
    }
  }

  /** The comment starts at the first `#` that is not quoted: the one with a clean text before it. */
  lemma CommentStartsExactlyWhen(s: string, i: nat)
    requires i < |s|
    ensures CommentFrom(s, Outside) == i <==> s[i] == '#' && QuotesClosed(s[..i])
  {
    assert s == s[..i] + s[i..];
    CommentInConcat(s[..i], s[i..], Outside);
    CleanExactlyWhen(s[..i]);
  }

  lemma DecoratedOnOneLine(previous: string, value: string)
    requires OnOneLine(previous) && OnOneLine(value)
    ensures OnOneLine(Decorated(previous, value))
  {
  }

  lemma AssignmentHasNoReturn(key: string, rest: string)
    requires IsKey(key) && OnOneLine(rest)
    ensures !EndsInReturn(key + "=" + rest)
  {
    var s := key + "=" + rest;
    assert s[|s| - 1] == if rest == [] then '=' else rest[|rest| - 1];
  }

  lemma AssignedLineHasNoReturn(raw: string, key: string)
    requires Assigns(raw, key)
    ensures !EndsInReturn(raw)
  {
    var n := KeyLength(raw);
    var front := TrimStartCut(raw[n..]);
    var rest := TrimStart(raw[n..]);
    assert raw == raw[..n] + raw[n..];
    assert raw[|raw| - 1] == rest[|rest| - 1];
    assert rest[|rest| - 1] == if |rest| == 1 then '=' else rest[1..][|rest| - 2];
  }

  lemma LinesHaveNoNewlines(current: string)
    ensures NoNewlines(LinesOf(current))
  {
    if current != [] {
      var parts := Split(current, '\n');
      forall k | 0 <= k < |parts| ensures '\n' !in parts[k] {
        SplitPartsAvoid(current, '\n', k);
      }
    }
  }

  lemma AssignmentHasNoNewline(key: string, rest: string)
    requires IsKey(key) && '\n' !in rest
    ensures '\n' !in key + "=" + rest
  {
    assert forall c :: c in key + "=" + rest ==> c in key || c == '=' || c in rest;
  }

  lemma DecoratedHasNoNewline(raw: string, value: string)
    requires '\n' !in raw && '\n' !in value
    ensures '\n' !in Decorated(AfterEquals(raw), value)
  {
  }

  lemma UpdatedLinesHaveNoNewlines(lines: seq<string>, key: string, value: string)
    requires IsKey(key) && '\n' !in value && NoNewlines(lines)
    ensures NoNewlines(UpdatedLines(lines, key, value)) && |UpdatedLines(lines, key, value)| > 0
  {
    var i := FirstAssignment(lines, key);
    if i < |lines| {
      DecoratedHasNoNewline(lines[i], value);
      AssignmentHasNoNewline(key, Decorated(AfterEquals(lines[i]), value));
    } else {
      AssignmentHasNoNewline(key, value);
      assert NoNewlines(Block(lines, key, value));
    }
  }

  /** Where the update went: the first assignment of the key among the new lines. */
  lemma UpdatedLineIsFirst(lines: seq<string>, key: string, value: string)
    requires IsKey(key) && OnOneLine(value)
    ensures var i, updated := FirstAssignment(lines, key), UpdatedLines(lines, key, value);
            FirstAssignment(updated, key) == if i < |lines| then i else |updated| - 1
  {
    var i, updated := FirstAssignment(lines, key), UpdatedLines(lines, key, value);
    if i < |lines| {
      AssignedTextOnOneLine(lines[i], key);
      DecoratedOnOneLine(AfterEquals(lines[i]), value);
      AssignmentIsRead(key, Decorated(AfterEquals(lines[i]), value));
      FirstAssignmentIs(updated, key, i);
    } else {
      AssignmentIsRead(key, value);
      var block := Block(lines, key, value);
      MarkerAssignsNothing(key);
      BlockShape(lines, key, value);
      Appending(lines, block);
      assert forall k :: |lines| <= k < |updated| ==> updated[k] == block[k - |lines|];
      FirstAssignmentIs(updated, key, |updated| - 1);
    }
  }

  lemma MarkerAssignsNothing(key: string)
    ensures !Assigns("", key) && !Assigns(MARKER, key)
  {
    assert MARKER[0] == '#';
  }

  lemma LastLineOfFile(current: string)
    ensures LastLineWritten(LinesOf(current), KeepsNewline(current))
  {
    if current != [] && !EndsWithNewline(current) {
      LastPartOfSplit(current, '\n');
      assert LinesOf(current) == SplitLines(current);
    }
  }

  lemma {:induction false} LastPartOfSplit(s: string, sep: char)
    requires s != [] && s[|s| - 1] != sep
    ensures var parts := Split(s, sep); parts[|parts| - 1] != []
  {
    if |s| > 1 {
      LastPartOfSplit(s[1..], sep);
    } else {
      assert Split(s[1..], sep) == [[]];
    }
  }

  /** `updated` is `lines` with one assignment of the key replaced in place or, when there is
      none, added behind all of them. */
  predicate IsUpdate(lines: seq<string>, updated: seq<string>, key: string, value: string, action: Action, lineNumber: nat) {
    && 1 <= lineNumber <= |updated|
    && FirstAssignment(updated, key) == lineNumber - 1
    && (action == Replaced <==> FirstAssignment(lines, key) < |lines|)
    && match action
       case Replaced =>
         && |updated| == |lines| && FirstAssignment(lines, key) == lineNumber - 1
         && updated[lineNumber - 1] == key + "=" + Decorated(AfterEquals(lines[lineNumber - 1]), value)
         && forall k :: 0 <= k < |lines| && k != lineNumber - 1 ==> updated[k] == lines[k]
       case Appended =>
         lines <= updated && lineNumber == |updated| && updated[lineNumber - 1] == key + "=" + value
  }

  lemma UpdatedLinesAreUpdate(lines: seq<string>, key: string, value: string)
    requires IsKey(key) && OnOneLine(value)
    ensures IsUpdate(lines, UpdatedLines(lines, key, value), key, value,
                     PlannedAction(lines, key), PlannedLine(lines, key, value))
  {
    UpdatedLineIsFirst(lines, key, value);
    if FirstAssignment(lines, key) == |lines| {
      BlockShape(lines, key, value);
      Appending(lines, Block(lines, key, value));
    }
  }

  lemma UpdatedTextReadsBack(current: string, key: string, value: string)
    requires IsKey(key) && '\n' !in value
    ensures var next, newline := PlanOf(current, key, value).next, KeepsNewline(current);
            && LinesOf(next) == Read(UpdatedLines(LinesOf(current), key, value), newline)
            && KeepsNewline(next) == newline
  {
    var lines := LinesOf(current);
    LinesHaveNoNewlines(current);
    LastLineOfFile(current);
    UpdatedLinesHaveNoNewlines(lines, key, value);
    UpdatedLastLine(lines, key, value, KeepsNewline(current));
    WrittenLinesReadBack(UpdatedLines(lines, key, value), KeepsNewline(current));
  }

  lemma UpdatedLastLine(lines: seq<string>, key: string, value: string, newline: bool)
    requires LastLineWritten(lines, newline)
    ensures LastLineWritten(UpdatedLines(lines, key, value), newline)
  {
    var i := FirstAssignment(lines, key);
    if i < |lines| {
      assert |Updated(lines[i], key, value)| > 0;
    } else {
      var block := Block(lines, key, value);
      BlockShape(lines, key, value);
      Appending(lines, block);
      assert |block[|block| - 1]| > 0;
    }
  }

  /** Only the last line ends in a carriage return of its own, if any does, and neither a final
      newline nor an appended line follows it. */
  predicate ReturnsAreKept(lines: seq<string>, key: string, newline: bool) {
    forall k :: 0 <= k < |lines| && EndsInReturn(lines[k]) ==>
      k == |lines| - 1 && !newline && FirstAssignment(lines, key) < |lines|
  }

  lemma ReadKeepsExactlyWhen(lines: seq<string>, newline: bool)
    ensures Read(lines, newline) == lines <==>
            forall k :: 0 <= k < |lines| && EndsInReturn(lines[k]) ==> k == |lines| - 1 && !newline
  {
    if k :| 0 <= k < |lines| && EndsInReturn(lines[k]) && !(k == |lines| - 1 && !newline) {
      assert |Read(lines, newline)[k]| < |lines[k]|;
    }
  }

  lemma UpdateIsReadExactlyWhen(lines: seq<string>, key: string, value: string, newline: bool)
    requires IsKey(key) && OnOneLine(value)
    ensures var updated := UpdatedLines(lines, key, value);
            Read(updated, newline) == updated <==> ReturnsAreKept(lines, key, newline)
  {
    var i, updated := FirstAssignment(lines, key), UpdatedLines(lines, key, value);
    ReadKeepsExactlyWhen(updated, newline);
    UpdateAddsNoReturn(lines, key, value);
    assert i < |lines| ==> |updated| == |lines|;
  }

  lemma UpdateAddsNoReturn(lines: seq<string>, key: string, value: string)
    requires IsKey(key) && OnOneLine(value)
    ensures var updated := UpdatedLines(lines, key, value);
            && |lines| <= |updated|
            && (forall k :: 0 <= k < |lines| ==> EndsInReturn(updated[k]) == EndsInReturn(lines[k]))
            && (forall k :: |lines| <= k < |updated| ==> !EndsInReturn(updated[k]))
  {
    var i, updated := FirstAssignment(lines, key), UpdatedLines(lines, key, value);
    if i < |lines| {
      UpdatedHasNoReturn(lines[i], key, value);
      AssignedLineHasNoReturn(lines[i], key);
    } else {
      AppendedEndsInNoReturn(lines, key, value);
      var block := Block(lines, key, value);
      forall k | |lines| <= k < |updated| ensures !EndsInReturn(updated[k]) {
        assert updated[k] == block[k - |lines|];
      }
    }
  }

  lemma UpdatedHasNoReturn(raw: string, key: string, value: string)
    requires IsKey(key) && OnOneLine(value) && Assigns(raw, key)
    ensures !EndsInReturn(Updated(raw, key, value))
  {
    AssignedTextOnOneLine(raw, key);
    DecoratedOnOneLine(AfterEquals(raw), value);
    AssignmentHasNoReturn(key, Decorated(AfterEquals(raw), value));
  }

  lemma AppendedEndsInNoReturn(lines: seq<string>, key: string, value: string)
    requires IsKey(key) && OnOneLine(value)
    ensures forall k :: 0 <= k < |Block(lines, key, value)| ==> !EndsInReturn(Block(lines, key, value)[k])
  {
    AssignmentHasNoReturn(key, value);
    assert !EndsInReturn("") && !EndsInReturn(MARKER);
  }

  lemma ValueComesFirst(previous: string, value: string)
    ensures value <= Decorated(previous, value)
  {
  }

  lemma FrontOnOneLine(front: string, text: string)
    requires front <= text && OnOneLine(text)
    ensures OnOneLine(front)
  {
    assert forall k :: 0 <= k < |front| ==> front[k] == text[k];
  }

  lemma ReadUpdateIsOnOneLine(lines: seq<string>, updated: seq<string>, key: string, value: string,
                              action: Action, lineNumber: nat)
    requires IsKey(key) && IsUpdate(lines, updated, key, value, action, lineNumber)
    ensures OnOneLine(value)
  {
    var previous := if action == Replaced then AfterEquals(lines[lineNumber - 1]) else "";
    var text := if action == Replaced then Decorated(previous, value) else value;
    assert updated[lineNumber - 1] == key + "=" + text;
    assert Assigns(key + "=" + text, key);
    AssignmentIsRead(key, text);
    ValueComesFirst(previous, value);
    FrontOnOneLine(value, text);
  }

  lemma LostReturnIsNoUpdate(lines: seq<string>, key: string, value: string, newline: bool)
    requires IsKey(key) && !ReturnsAreKept(lines, key, newline)
    ensures !IsUpdate(lines, Read(UpdatedLines(lines, key, value), newline), key, value,
                      PlannedAction(lines, key), PlannedLine(lines, key, value))
  {
    var k :| 0 <= k < |lines| && EndsInReturn(lines[k])
             && !(k == |lines| - 1 && !newline && FirstAssignment(lines, key) < |lines|);
    LostReturn(lines, key, value, newline, k);
  }

  lemma ReadIsUpdateExactlyWhen(lines: seq<string>, key: string, value: string, newline: bool)
    requires IsKey(key)
    ensures IsUpdate(lines, Read(UpdatedLines(lines, key, value), newline), key, value,
                     PlannedAction(lines, key), PlannedLine(lines, key, value))
            <==> OnOneLine(value) && ReturnsAreKept(lines, key, newline)
  {
    var read := Read(UpdatedLines(lines, key, value), newline);
    var action, line := PlannedAction(lines, key), PlannedLine(lines, key, value);
    if IsUpdate(lines, read, key, value, action, line) {
      ReadUpdateIsOnOneLine(lines, read, key, value, action, line);
    }
    if !ReturnsAreKept(lines, key, newline) {
      LostReturnIsNoUpdate(lines, key, value, newline);
    } else if OnOneLine(value) {
      UpdateIsReadExactlyWhen(lines, key, value, newline);
      UpdatedLinesAreUpdate(lines, key, value);
    }
  }

  /** One update of any file with any value the planner accepts. Reading the new text back
      gives an update of the old lines with the reported action and line number exactly when
      the value is on one line and the file's own carriage returns are kept. The final newline
      is kept always. */
  lemma UpdateReadsBack(current: string, key: string, value: string)
    requires IsKey(key) && '\n' !in value
    ensures var lines, newline, plan := LinesOf(current), KeepsNewline(current), PlanOf(current, key, value);
            && KeepsNewline(plan.next) == newline
            && (IsUpdate(lines, LinesOf(plan.next), key, value, plan.action, plan.lineNumber)
                <==> OnOneLine(value) && ReturnsAreKept(lines, key, newline))
  {
    UpdatedTextReadsBack(current, key, value);
    ReadIsUpdateExactlyWhen(LinesOf(current), key, value, KeepsNewline(current));
  }

  lemma LostReturn(lines: seq<string>, key: string, value: string, newline: bool, k: nat)
    requires IsKey(key) && k < |lines| && EndsInReturn(lines[k])
    requires !(k == |lines| - 1 && !newline && FirstAssignment(lines, key) < |lines|)
    ensures var read := Read(UpdatedLines(lines, key, value), newline);
            && k != FirstAssignment(lines, key)
            && k < |read| && read[k] != lines[k]
  {
    var i := FirstAssignment(lines, key);
    if i < |lines| {
      AssignedLineHasNoReturn(lines[i], key);
    }
    assert |ChopReturn(lines[k])| < |lines[k]|;
  }

  lemma AssigningLines(lines: seq<string>, key: string)
    requires IsKey(key)
    ensures forall k :: 0 <= k < |lines| ==>
              (Assigns(lines[k], key) <==> exists gap, rest :: IsAssignment(lines[k], key, gap, rest))
  {
    forall k | 0 <= k < |lines| ensures Assigns(lines[k], key) <==> exists gap, rest :: IsAssignment(lines[k], key, gap, rest) {
      KeyCharacters(key);
      AssignsExactlyWhen(lines[k], key);
    }
  }

  lemma FirstAssignmentExactlyWhen(lines: seq<string>, key: string, i: nat)
    requires IsKey(key)
    ensures FirstAssignment(lines, key) == i < |lines| <==>
            && i < |lines| && (exists gap, rest :: IsAssignment(lines[i], key, gap, rest))
            && forall k, gap, rest :: 0 <= k < i ==> !IsAssignment(lines[k], key, gap, rest)
    ensures FirstAssignment(lines, key) == |lines| <==>
            forall k, gap, rest :: 0 <= k < |lines| ==> !IsAssignment(lines[k], key, gap, rest)
  {
    AssigningLines(lines, key);
    var f := FirstAssignment(lines, key);
    if f < |lines| {
      assert Assigns(lines[f], key);
    }
  }

  /** Whether a line is replaced and which one: the first that assigns the key. When none does,
      the assignment becomes the last line. */
  lemma ReplacesFirstAssignment(current: string, key: string, value: string, i: nat)
    requires IsKey(key)
    ensures var lines, plan := LinesOf(current), PlanOf(current, key, value);
            && (plan.action == Replaced && plan.lineNumber == i + 1 <==>
                && i < |lines| && (exists gap, rest :: IsAssignment(lines[i], key, gap, rest))
                && forall k, gap, rest :: 0 <= k < i ==> !IsAssignment(lines[k], key, gap, rest))
            && (plan.action == Appended <==>
                forall k, gap, rest :: 0 <= k < |lines| ==> !IsAssignment(lines[k], key, gap, rest))
  {
    FirstAssignmentExactlyWhen(LinesOf(current), key, i);
    PlanGoesTo(current, key, value, i);
  }

  lemma PlanGoesTo(current: string, key: string, value: string, i: nat)
    ensures var lines, plan := LinesOf(current), PlanOf(current, key, value);
            && (plan.action == Replaced && plan.lineNumber == i + 1 <==> FirstAssignment(lines, key) == i < |lines|)
            && (plan.action == Appended <==> FirstAssignment(lines, key) == |lines|)
  {
  }

  /** The text of lines of a file: joined, and with a final newline if the file has one or is
      empty. */
  lemma PlannedText(current: string, key: string, value: string)
    ensures PlanOf(current, key, value).next ==
            Join(UpdatedLines(LinesOf(current), key, value), "\n")
            + if current == "" || current[|current| - 1] == '\n' then "\n" else ""
  {
  }

  /** What becomes of the line: key, value and the old comment, if there is one, with a space
      before it unless it stood behind nothing but spaces. */
  lemma ReplacedLineIs(current: string, key: string, value: string, i: nat, gap: string, rest: string)
    returns (comment: string)
    requires IsKey(key) && PlanOf(current, key, value).action == Replaced
    requires PlanOf(current, key, value).lineNumber == i + 1 && i < |LinesOf(current)|
    requires IsAssignment(LinesOf(current)[i], key, gap, rest)
    ensures IsCommentText(rest, comment)
    ensures PlanOf(current, key, value).next ==
            Join(LinesOf(current)[i := key + "=" + value + comment], "\n")
            + if current == "" || current[|current| - 1] == '\n' then "\n" else ""
  {
    comment := ReplacedLineHolds(LinesOf(current), key, value, i, gap, rest);
    PlannedText(current, key, value);
  }

  lemma ReplacedLineHolds(lines: seq<string>, key: string, value: string, i: nat, gap: string, rest: string)
    returns (comment: string)
    requires IsKey(key) && FirstAssignment(lines, key) == i < |lines| && IsAssignment(lines[i], key, gap, rest)
    ensures IsCommentText(rest, comment)
    ensures UpdatedLines(lines, key, value) == lines[i := key + "=" + value + comment]
  {
    RestIsAfterEquals(lines[i], key, gap, rest);
    comment := DecoratedIs(rest, value);
    assert key + "=" + value + comment == key + "=" + (value + comment);
  }

  /** The comment of a line as it is written back: from the first unquoted `#` on, behind a
      space unless nothing but spaces stood before it; nothing when there is none. */
  ghost predicate IsCommentText(rest: string, comment: string) {
    if exists c :: StartsComment(rest, c)
    then exists c :: StartsComment(rest, c)
           && comment == (if forall k :: 0 <= k < c ==> rest[k] == ' ' then "" else " ") + rest[c..]
    else comment == ""
  }

  ghost predicate StartsComment(rest: string, c: int) {
    0 <= c < |rest| && rest[c] == '#' && QuotesClosed(rest[..c])
  }

  lemma DecoratedIs(previous: string, value: string) returns (comment: string)
    ensures IsCommentText(previous, comment) && Decorated(previous, value) == value + comment
  {
    var c := CommentFrom(previous, Outside);
    CommentStarts(previous);
    if c < |previous| {
      comment := Gap(previous[..c]) + previous[c..];
      assert StartsComment(previous, c);
      assert Gap(previous[..c]) == if forall k :: 0 <= k < c ==> previous[k] == ' ' then "" else " ";
      assert value + comment == value + Gap(previous[..c]) + previous[c..];
    } else {
      comment := "";
    }
  }

  lemma CommentStarts(s: string)
    ensures forall c :: StartsComment(s, c) <==> c == CommentFrom(s, Outside) < |s|
  {
    forall c ensures StartsComment(s, c) <==> c == CommentFrom(s, Outside) < |s| {
      if 0 <= c < |s| {
        CommentStartsExactlyWhen(s, c);
      }
    }
  }

  /** What is appended: a blank line behind other lines, the marker unless a line holds it with
      at most white space around it, and the assignment. */
  lemma AppendedTextIs(current: string, key: string, value: string)
    requires IsKey(key) && PlanOf(current, key, value).action == Appended
    ensures var lines, plan := LinesOf(current), PlanOf(current, key, value);
            var all := lines
                       + (if |lines| > 0 && lines[|lines| - 1] != "" then [""] else [])
                       + (if Marked(lines) then [] else ["# Managed by /hub/features"])
                       + [key + "=" + value];
            && plan.next == Join(all, "\n") + (if current == "" || current[|current| - 1] == '\n' then "\n" else "")
            && plan.lineNumber == |all|
  {
    AppendedLinesAre(LinesOf(current), key, value);
    PlannedText(current, key, value);
  }

  lemma AppendedLinesAre(lines: seq<string>, key: string, value: string)
    requires FirstAssignment(lines, key) == |lines|
    ensures UpdatedLines(lines, key, value) ==
            lines
            + (if |lines| > 0 && lines[|lines| - 1] != "" then [""] else [])
            + (if Marked(lines) then [] else ["# Managed by /hub/features"])
            + [key + "=" + value]
  {
    MarkedExactlyWhen(lines);
    var blank := if |lines| > 0 && lines[|lines| - 1] != "" then [""] else [];
    var marker := if Marked(lines) then [] else [MARKER];
    assert Block(lines, key, value) == blank + marker + [key + "=" + value];
    AssociateThree(lines, blank, marker, [key + "=" + value]);
  }

  lemma AssociateThree<T>(a: seq<T>, b: seq<T>, c: seq<T>, d: seq<T>)
    ensures a + (b + c + d) == a + b + c + d
  {
  }

  /** Some line holds the marker with at most white space around it. */
  ghost predicate Marked(lines: seq<string>) {
    exists l, front, back :: l in lines && IsSpaced(l, front, "# Managed by /hub/features", back)
  }

  lemma MarkedExactlyWhen(lines: seq<string>)
    ensures Marked(lines) <==> exists l :: l in lines && IsMarkerLine(l)
  {
    if l :| l in lines && IsMarkerLine(l) {
      MarkerLineExactlyWhen(l);
    }
    if l, front, back :| l in lines && IsSpaced(l, front, "# Managed by /hub/features", back) {
      MarkerLineExactlyWhen(l);
    }
  }

  /** `l` is `text` with white space around it. */
  ghost predicate IsSpaced(l: string, front: string, text: string, back: string) {
    l == front + text + back && AllSpace(front) && AllSpace(back)
  }

  lemma MarkerLineExactlyWhen(l: string)
    ensures IsMarkerLine(l) <==> exists front, back :: IsSpaced(l, front, "# Managed by /hub/features", back)
  {
    if IsMarkerLine(l) {
      var front, back := TrimCutsSpaceOnly(l);
      assert IsSpaced(l, front, "# Managed by /hub/features", back);
    }
    if front, back :| IsSpaced(l, front, "# Managed by /hub/features", back) {
      MarkerIsMarkerLine();
      TrimOfSpaced(front, "# Managed by /hub/features", back);
    }
  }

  lemma {:induction false} JoinEndsInNewline(lines: seq<string>)
    requires |lines| > 0 && NoNewlines(lines) && lines[|lines| - 1] != []
    ensures !EndsWithNewline(Join(lines, "\n"))
  {
    JoinEndsAsLastPart(lines);
    var last := lines[|lines| - 1];
    assert last[|last| - 1] in last;
  }

  /** The new text ends in a newline exactly when the old one did or was empty. */
  lemma FinalNewlineExactlyWhen(current: string, key: string, value: string)
    requires IsKey(key) && '\n' !in value
    ensures var next := PlanOf(current, key, value).next;
            next != "" && (next[|next| - 1] == '\n' <==> current == "" || current[|current| - 1] == '\n')
  {
    var lines, newline := LinesOf(current), KeepsNewline(current);
    LinesHaveNoNewlines(current);
    LastLineOfFile(current);
    UpdatedLinesHaveNoNewlines(lines, key, value);
    UpdatedLastLine(lines, key, value, newline);
    var updated := UpdatedLines(lines, key, value);
    if !newline {
      JoinEndsInNewline(updated);
      JoinEndsAsLastPart(updated);
      assert TextOf(updated, false) == Join(updated, "\n");
    }
  }

  // ------------------------------------------------------------ the managed marker

  function MarkerCount(lines: seq<string>): nat {
    |Kept(lines, IsMarkerLine)|
  }

  lemma AssignmentIsNoMarker(key: string, rest: string)
    requires IsKey(key)
    ensures !IsMarkerLine(key + "=" + rest)
  {
    var s := key + "=" + rest;
    var front, back := TrimCutsSpaceOnly(s);
    assert s[0] == key[0];
    assert front != [] ==> s[0] == front[0];
    assert front == [] && Trim(s) != [] ==> s[0] == Trim(s)[0];
  }

  lemma MarkerIsMarkerLine()
    ensures IsMarkerLine(MARKER) && !IsMarkerLine("")
  {
    assert !IsSpace(MARKER[0]) && !IsSpace(MARKER[|MARKER| - 1]);
  }

  lemma {:induction false} MarkerCountExactly(lines: seq<string>)
    ensures MarkerCount(lines) > 0 <==> exists l :: l in lines && IsMarkerLine(l)
  {
    if lines != [] {
      MarkerCountExactly(lines[1..]);
      assert lines == [lines[0]] + lines[1..];
    }
  }

  /** Appending puts a blank line behind other lines, then the marker when it is missing, then
      the assignment. */
  lemma AppendedBlockShape(lines: seq<string>, key: string, value: string)
    requires FirstAssignment(lines, key) == |lines|
    ensures var updated := UpdatedLines(lines, key, value);
            && |lines| < |updated| <= |lines| + 3
            && (|lines| > 0 ==> updated[|lines| - 1] == "" || updated[|lines|] == "")
            && (forall k :: |lines| <= k < |updated| - 1 ==> updated[k] == "" || updated[k] == MARKER)
            && updated[|updated| - 1] == key + "=" + value
  {
    var block := Block(lines, key, value);
    BlockShape(lines, key, value);
    Appending(lines, block);
    assert forall k :: |lines| <= k < |lines + block| ==> (lines + block)[k] == block[k - |lines|];
  }

  /** Afterwards there is one marker, or as many as there were. */
  lemma AppendKeepsOneMarker(lines: seq<string>, key: string, value: string)
    requires IsKey(key) && FirstAssignment(lines, key) == |lines|
    ensures MarkerCount(UpdatedLines(lines, key, value)) == if MarkerCount(lines) == 0 then 1 else MarkerCount(lines)
  {
    var block := Block(lines, key, value);
    MarkerIsMarkerLine();
    AssignmentIsNoMarker(key, value);
    MarkerCountExactly(lines);
    KeptConcat(lines, block, IsMarkerLine);
    var blank := if |lines| > 0 && lines[|lines| - 1] != [] then [""] else [];
    var marker := if exists l :: l in lines && IsMarkerLine(l) then [] else [MARKER];
    assert block == blank + marker + [key + "=" + value];
    KeptConcat(blank + marker, [key + "=" + value], IsMarkerLine);
    KeptConcat(blank, marker, IsMarkerLine);
    KeptAllOrNone(blank, IsMarkerLine);
    KeptAllOrNone(marker, IsMarkerLine);
    KeptAllOrNone([key + "=" + value], IsMarkerLine);
  }

  // ------------------------------------------------------------ repeating an update

  /** No `#` outside quotes, and every quote closed. */
  predicate Clean(value: string) {
    CommentFrom(value, Outside) == |value| && QuotingAfter(value, Outside) == Outside
  }

  lemma {:induction false} CommentInConcat(a: string, b: string, q: Quoting)
    ensures CommentFrom(a + b, q) ==
            if CommentFrom(a, q) < |a| then CommentFrom(a, q) else |a| + CommentFrom(b, QuotingAfter(a, q))
  {
    if a == [] {
      assert [] + b == b;
    } else {
      assert (a + b)[1..] == a[1..] + b;
      if !(a[0] == '#' && q == Outside) {
        CommentInConcat(a[1..], b, NextQuoting(q, a[0]));
      }
    }
  }

  lemma GapIsQuiet(g: string, q: Quoting)
    requires g == "" || g == " "
    ensures CommentFrom(g, q) == |g| && QuotingAfter(g, q) == q
  {
    if g == " " {
      assert g[1..] == "";
    }
  }

  /** A clean value in front of a comment: the comment is found right behind the gap. */
  lemma CommentBehindCleanValue(value: string, g: string, trailing: string)
    requires Clean(value) && (g == "" || g == " ") && trailing != [] && trailing[0] == '#'
    ensures CommentFrom(value + g + trailing, Outside) == |value| + |g|
  {
    CommentInConcat(value + g, trailing, Outside);
    CommentInConcat(value, g, Outside);
    GapIsQuiet(g, Outside);
    QuotingInConcat(value, g, Outside);
  }

  lemma {:induction false} QuotingInConcat(a: string, b: string, q: Quoting)
    ensures QuotingAfter(a + b, q) == QuotingAfter(b, QuotingAfter(a, q))
  {
    if a == [] {
      assert [] + b == b;
    } else {
      assert (a + b)[1..] == a[1..] + b;
      QuotingInConcat(a[1..], b, NextQuoting(q, a[0]));
    }
  }

  predicate HasComment(text: string) {
    CommentFrom(text, Outside) < |text|
  }

  function BeforeComment(text: string): string {
    text[..CommentFrom(text, Outside)]
  }

  /** Updating an updated line again: the comment stays, the gap becomes the value's own. */
  lemma DecoratedTwice(previous: string, value: string)
    requires Clean(value)
    ensures var once := Decorated(previous, value);
            var c := CommentFrom(previous, Outside);
            Decorated(once, value) == if HasComment(previous) then value + Gap(value) + previous[c..] else value
    ensures HasComment(Decorated(previous, value)) == HasComment(previous)
    ensures BeforeComment(Decorated(previous, value)) ==
            if HasComment(previous) then value + Gap(BeforeComment(previous)) else value
  {
    var c := CommentFrom(previous, Outside);
    if HasComment(previous) {
      var g, trailing := Gap(previous[..c]), previous[c..];
      CommentBehindCleanValue(value, g, trailing);
      var once := value + g + trailing;
      assert once[..|value| + |g|] == value + g && once[|value| + |g|..] == trailing;
      assert Blank(value + g) == Blank(value) by {
        assert forall k :: 0 <= k < |value| ==> (value + g)[k] == value[k];
      }
    }
  }

  /** The comment behind a clean value is the old comment, unchanged. */
  lemma CommentSurvives(previous: string, value: string)
    requires Clean(value)
    ensures var updated := Decorated(previous, value);
            updated[CommentFrom(updated, Outside)..] == previous[CommentFrom(previous, Outside)..]
  {
    if HasComment(previous) {
      var c := CommentFrom(previous, Outside);
      CommentBehindCleanValue(value, Gap(previous[..c]), previous[c..]);
    }
  }

  /** With a clean value the second update settles the line, and already the first one does
      exactly when there is no comment or the gap was the right one. */
  lemma CleanUpdatesSettle(previous: string, value: string)
    requires Clean(value)
    ensures var once := Decorated(previous, value);
            var twice := Decorated(once, value);
            && Decorated(twice, value) == twice
            && (twice == once <==> !HasComment(previous) || Blank(value) == Blank(BeforeComment(previous)))
  {
    DecoratedTwice(previous, value);
    DecoratedTwice(Decorated(previous, value), value);
    if HasComment(previous) {
      var c := CommentFrom(previous, Outside);
      var g, g', trailing := Gap(BeforeComment(previous)), Gap(value), previous[c..];
      if g != g' {
        assert |value + g + trailing| != |value + g' + trailing|;
      }
    }
  }

  /** A reader that stops at the comment gets the value back, with at most the gap behind it,
      from every updated line, exactly when the value is clean. */
  lemma ValueIsReadExactlyWhenClean(value: string)
    ensures Clean(value) <==>
            forall previous :: BeforeComment(Decorated(previous, value)) in {value, value + " "}
  {
    if Clean(value) {
      forall previous ensures BeforeComment(Decorated(previous, value)) in {value, value + " "} {
        DecoratedTwice(previous, value);
        assert value + "" == value;
      }
    } else if HasComment(value) {
      assert Decorated("", value) == value;
      assert |BeforeComment(Decorated("", value))| < |value|;
    } else {
      assert "#"[..0] == "" && "#"[0..] == "#";
      assert Decorated("#", value) == value + "#";
      CommentInConcat(value, "#", Outside);
      assert "#"[1..] == "";
      assert BeforeComment(Decorated("#", value)) == value + "#";
      assert (value + "#")[|value|] != (value + " ")[|value|];
    }
  }

  /** An unquoted `#` in the value is taken for a comment, and every further update appends it
      again. */
  lemma HashInValueGrows(value: string)
    requires HasComment(value)
    ensures var once := Decorated("", value);
            var twice := Decorated(once, value);
            |Decorated(twice, value)| > |twice|
  {
    var c := CommentFrom(value, Outside);
    var u := Gap(value[..c]) + value[c..];
    assert Decorated(value, value) == value + u;
    CommentInConcat(value, u, Outside);
    assert (value + u)[..c] == value[..c];
  }

  function Ending(q: Quoting): char {
    if q == InSingle then '\'' else '"'
  }

  /** Two characters of a comment that end an open quote and start the next comment. */
  function Rung(q: Quoting): string {
    ['#', Ending(q)]
  }

  lemma RungInQuote(q: Quoting, rest: string)
    requires q != Outside && rest != [] && rest[0] == '#'
    ensures CommentFrom(Rung(q) + rest, q) == 2
  {
    var t := Rung(q) + rest;
    assert t[1..][1..] == rest;
    assert t[1..][0] == Ending(q);
    assert CommentFrom(t[1..], q) == 1 + CommentFrom(rest, Outside);
  }

  lemma CommentBehindRung(value: string, g: string, rest: string)
    requires !HasComment(value) && (g == "" || g == " ")
    requires QuotingAfter(value, Outside) != Outside
    requires rest != [] && rest[0] == '#'
    ensures CommentFrom(value + g + (Rung(QuotingAfter(value, Outside)) + rest), Outside) == |value| + |g| + 2
  {
    var q := QuotingAfter(value, Outside);
    CommentInConcat(value + g, Rung(q) + rest, Outside);
    CommentInConcat(value, g, Outside);
    QuotingInConcat(value, g, Outside);
    GapIsQuiet(g, q);
    RungInQuote(q, rest);
  }

  lemma OpenQuoteEatsRung(value: string, g: string, rest: string)
    requires !HasComment(value) && (g == "" || g == " ")
    requires QuotingAfter(value, Outside) != Outside
    requires rest != [] && rest[0] == '#'
    ensures Decorated(value + g + (Rung(QuotingAfter(value, Outside)) + rest), value) == value + " " + rest
  {
    CommentBehindRung(value, g, rest);
    var front := value + g;
    CutBehindRung(front, Rung(QuotingAfter(value, Outside)), rest);
  }

  lemma CutBehindRung(front: string, rung: string, rest: string)
    requires |rung| == 2 && rung[0] == '#'
    ensures (front + (rung + rest))[|front| + 2..] == rest
    ensures !Blank((front + (rung + rest))[..|front| + 2])
  {
    assert (front + (rung + rest))[..|front| + 2][|front|] == '#';
  }

  /** A comment of three rungs. */
  function Ladder(q: Quoting): string {
    Rung(q) + (Rung(q) + (Rung(q) + "#"))
  }

  /** With a quote left open, each update eats a piece of the comment. */
  lemma OpenQuoteEatsComment(value: string)
    requires !HasComment(value) && QuotingAfter(value, Outside) != Outside
    ensures var once := Decorated(Ladder(QuotingAfter(value, Outside)), value);
            var twice := Decorated(once, value);
            |Decorated(twice, value)| < |twice|
  {
    var q := QuotingAfter(value, Outside);
    var t1 := Rung(q) + "#";
    var t2 := Rung(q) + t1;
    assert Decorated(Ladder(q), value) == value + "" + (Rung(q) + t2) by {
      assert Ladder(q)[..0] == "" && Ladder(q)[0..] == Ladder(q);
      assert CommentFrom(Ladder(q), Outside) == 0;
    }
    OpenQuoteEatsRung(value, "", t2);
    OpenQuoteEatsRung(value, " ", t1);
  }

  /** Whatever the line was, the third update changes nothing any more exactly when the value
      is clean. */
  lemma UpdatesSettleExactlyWhenClean(value: string)
    ensures Clean(value) <==> forall previous :: SettledByTwo(previous, value)
  {
    if Clean(value) {
      forall previous ensures SettledByTwo(previous, value) {
        CleanUpdatesSettle(previous, value);
      }
    } else if HasComment(value) {
      HashInValueGrows(value);
      assert !SettledByTwo("", value);
    } else {
      OpenQuoteEatsComment(value);
      var q := QuotingAfter(value, Outside);
      assert !SettledByTwo(Ladder(q), value);
    }
  }

  predicate SettledByTwo(previous: string, value: string) {
    var twice := Decorated(Decorated(previous, value), value);
    Decorated(twice, value) == twice
  }

  // ------------------------------------------------------------ repeating an update of a file

  /** What the updated line holds behind its `=`. */
  function UpdatedText(lines: seq<string>, key: string, value: string): string {
    var i := FirstAssignment(lines, key);
    if i < |lines| then Decorated(AfterEquals(lines[i]), value) else value
  }

  lemma UpdatingAgain(lines: seq<string>, key: string, value: string)
    requires IsKey(key) && OnOneLine(value)
    ensures var once := UpdatedLines(lines, key, value);
            var j := FirstAssignment(once, key);
            && j < |once|
            && once[j] == key + "=" + UpdatedText(lines, key, value)
            && UpdatedLines(once, key, value) == once[j := key + "=" + Decorated(UpdatedText(lines, key, value), value)]
            && UpdatedText(once, key, value) == Decorated(UpdatedText(lines, key, value), value)
            && FirstAssignment(UpdatedLines(once, key, value), key) == j
  {
    var i := FirstAssignment(lines, key);
    var once := UpdatedLines(lines, key, value);
    UpdatedLineIsFirst(lines, key, value);
    UpdatedLineIsFirst(once, key, value);
    if i < |lines| {
      AssignedTextOnOneLine(lines[i], key);
      DecoratedOnOneLine(AfterEquals(lines[i]), value);
    }
    AssignmentIsRead(key, UpdatedText(lines, key, value));
  }

  /** Nothing but spaces stood between the `=` and the comment of the replaced line, while the
      value is more than spaces, or the other way round. */
  predicate WrongGap(lines: seq<string>, key: string, value: string) {
    var i := FirstAssignment(lines, key);
    && i < |lines|
    && HasComment(AfterEquals(lines[i]))
    && Blank(value) != Blank(BeforeComment(AfterEquals(lines[i])))
  }

  lemma {:induction false} TextDeterminesLines(a: seq<string>, b: seq<string>, newline: bool)
    requires |a| > 0 && |b| > 0 && NoNewlines(a) && NoNewlines(b)
    requires TextOf(a, newline) == TextOf(b, newline)
    ensures a == b
  {
    var end := if newline then "\n" else "";
    assert Join(a, "\n") == TextOf(a, newline)[..|TextOf(a, newline)| - |end|];
    assert Join(b, "\n") == TextOf(b, newline)[..|TextOf(b, newline)| - |end|];
    JoinIsInjective(a, b, '\n');
  }

  /** Updating any file with a clean value a second time changes nothing exactly when the
      file's own carriage returns are kept and the gap in front of the old comment was right. */
  lemma SecondUpdateIsIdle(current: string, key: string, value: string)
    requires IsKey(key) && OnOneLine(value) && Clean(value)
    ensures var once := PlanOf(current, key, value).next;
            PlanOf(once, key, value).next == once
            <==> ReturnsAreKept(LinesOf(current), key, KeepsNewline(current)) && !WrongGap(LinesOf(current), key, value)
  {
    var lines, newline := LinesOf(current), KeepsNewline(current);
    var once, updated := PlanOf(current, key, value).next, UpdatedLines(lines, key, value);
    var again := UpdatedLines(Read(updated, newline), key, value);
    UpdatedTextReadsBack(current, key, value);
    assert PlanOf(once, key, value).next == TextOf(again, newline);
    assert TextOf(again, newline) == TextOf(updated, newline) <==> again == updated by {
      LinesHaveNoNewlines(current);
      UpdatedLinesHaveNoNewlines(lines, key, value);
      LinesHaveNoNewlines(once);
      UpdatedLinesHaveNoNewlines(Read(updated, newline), key, value);
      if TextOf(again, newline) == TextOf(updated, newline) {
        TextDeterminesLines(again, updated, newline);
      }
    }
    UpdateIsReadExactlyWhen(lines, key, value, newline);
    if ReturnsAreKept(lines, key, newline) {
      LinesSettle(lines, key, value);
    } else {
      ChoppedLineStaysChopped(updated, key, value, newline);
    }
  }

  lemma ChoppedLineStaysChopped(lines: seq<string>, key: string, value: string, newline: bool)
    requires IsKey(key) && OnOneLine(value) && Read(lines, newline) != lines
    ensures UpdatedLines(Read(lines, newline), key, value) != lines
  {
    ReadKeepsExactlyWhen(lines, newline);
    var k :| 0 <= k < |lines| && EndsInReturn(lines[k]) && !(k == |lines| - 1 && !newline);
    var read := Read(lines, newline);
    var i, updated := FirstAssignment(read, key), UpdatedLines(read, key, value);
    if i == k {
      AssignedTextOnOneLine(read[i], key);
      DecoratedOnOneLine(AfterEquals(read[i]), value);
      AssignmentHasNoReturn(key, Decorated(AfterEquals(read[i]), value));
      assert !EndsInReturn(updated[k]);
    } else {
      assert updated[k] == read[k] && |read[k]| < |lines[k]|;
    }
  }

  lemma UpdatedIsKeptAndRight(lines: seq<string>, key: string, value: string, newline: bool)
    requires IsKey(key) && OnOneLine(value) && Clean(value)
    requires Read(UpdatedLines(lines, key, value), newline) == UpdatedLines(lines, key, value)
    ensures var updated := UpdatedLines(lines, key, value);
            ReturnsAreKept(updated, key, newline) && !WrongGap(updated, key, value)
  {
    var updated := UpdatedLines(lines, key, value);
    UpdatingAgain(lines, key, value);
    ReadKeepsExactlyWhen(updated, newline);
    LinesSettle(lines, key, value);
    LinesSettle(updated, key, value);
  }

  /** The lines after one update, as they are read back. */
  function OnceUpdated(current: string, key: string, value: string): seq<string> {
    Read(UpdatedLines(LinesOf(current), key, value), KeepsNewline(current))
  }

  /** A third update of any file with a clean value changes nothing exactly when the lines after
      the first one lose no further carriage return and no wrong gap; so it is on every file
      whose own carriage returns are kept. */
  lemma RepeatedUpdatesSettle(current: string, key: string, value: string)
    requires IsKey(key) && OnOneLine(value) && Clean(value)
    ensures var twice, lines := PlanOf(PlanOf(current, key, value).next, key, value).next, OnceUpdated(current, key, value);
            PlanOf(twice, key, value).next == twice
            <==> ReturnsAreKept(lines, key, KeepsNewline(current)) && !WrongGap(lines, key, value)
    ensures ReturnsAreKept(LinesOf(current), key, KeepsNewline(current)) ==>
              var lines := OnceUpdated(current, key, value);
              ReturnsAreKept(lines, key, KeepsNewline(current)) && !WrongGap(lines, key, value)
  {
    var newline, once := KeepsNewline(current), PlanOf(current, key, value).next;
    UpdatedTextReadsBack(current, key, value);
    SecondUpdateIsIdle(once, key, value);
    UpdateIsReadExactlyWhen(LinesOf(current), key, value, newline);
    if ReturnsAreKept(LinesOf(current), key, newline) {
      UpdatedIsKeptAndRight(LinesOf(current), key, value, newline);
    }
  }

  lemma LinesSettle(lines: seq<string>, key: string, value: string)
    requires IsKey(key) && OnOneLine(value) && Clean(value)
    ensures var once := UpdatedLines(lines, key, value);
            var twice := UpdatedLines(once, key, value);
            && UpdatedLines(twice, key, value) == twice
            && (twice == once <==> !WrongGap(lines, key, value))
  {
    UpdatedTextSettles(lines, key, value);
    UpdateIsIdleExactlyWhen(lines, key, value);
    UpdateIsIdleExactlyWhen(UpdatedLines(lines, key, value), key, value);
    UpdatingAgain(lines, key, value);
  }

  /** A second update changes the lines exactly when it changes the text behind the `=`. */
  lemma UpdateIsIdleExactlyWhen(lines: seq<string>, key: string, value: string)
    requires IsKey(key) && OnOneLine(value)
    ensures var once, text := UpdatedLines(lines, key, value), UpdatedText(lines, key, value);
            UpdatedLines(once, key, value) == once <==> Decorated(text, value) == text
  {
    var once, text := UpdatedLines(lines, key, value), UpdatedText(lines, key, value);
    UpdatingAgain(lines, key, value);
    SameAssignment(key, text, Decorated(text, value));
    var j := FirstAssignment(once, key);
    assert UpdatedLines(once, key, value) == once <==> UpdatedLines(once, key, value)[j] == once[j];
  }

  lemma SameAssignment(key: string, x: string, y: string)
    ensures key + "=" + x == key + "=" + y <==> x == y
  {
    if key + "=" + x == key + "=" + y {
      assert x == (key + "=" + x)[|key| + 1..] && y == (key + "=" + y)[|key| + 1..];
    }
  }

  lemma UpdatedTextSettles(lines: seq<string>, key: string, value: string)
    requires Clean(value)
    ensures var text := UpdatedText(lines, key, value);
            && Decorated(Decorated(text, value), value) == Decorated(text, value)
            && (Decorated(text, value) == text <==> !WrongGap(lines, key, value))
  {
    var i := FirstAssignment(lines, key);
    if i < |lines| {
      CleanUpdatesSettle(AfterEquals(lines[i]), value);
    }
  }
}
