/** The line-by-line style checks that can fix a file: trailing white space and tabs, with
    clang-format guards that switch a check off and on. */
module StyleCheck {
  import opened PythonText

  const TAB_SIZE := 4

  const GUARDS_ON: seq<string> := ["// clang-format on", "# cmake-format: on", "# fmt: on"]
  const GUARDS_OFF: seq<string> := ["// clang-format off", "# cmake-format: off", "# fmt: off"]

  datatype LineResult = LineResult(compliant: bool, fixed: string)

  /** The function that a style check applies to each line. */
  type LineCheck = string -> LineResult

  // ---------- one line ----------

  function Spaces(n: nat): (s: string)
    ensures |s| == n && forall i :: 0 <= i < n ==> s[i] == ' '
  {
    seq(n, _ => ' ')
  }

  // The column after one character.
  function Advance(c: char, col: nat): nat {
    if c == '\t' then col + (TAB_SIZE - col % TAB_SIZE)
    else if c == '\n' || c == '\r' then 0
    else col + 1
  }

  function ExpandChar(c: char, col: nat): string {
    if c == '\t' then Spaces(TAB_SIZE - col % TAB_SIZE) else [c]
  }

  /** str.expandtabs, from a given column. */
  function ExpandFrom(s: string, col: nat): string {
    if s == "" then "" else ExpandChar(s[0], col) + ExpandFrom(s[1..], Advance(s[0], col))
  }

  function ExpandTabs(s: string): string { ExpandFrom(s, 0) }

  /** check_whitespace_line: trailing white space. */
  function WhitespaceLine(line: string): LineResult {
    var fixed := RStrip(line) + "\n";
    LineResult(fixed == line, fixed)
  }

  /** check_tabs_line: tabs. */
  function TabsLine(line: string): LineResult {
    if '\t' in line then LineResult(false, ExpandTabs(line)) else LineResult(true, line)
  }

  function ColumnAfter(s: string, col: nat): nat {
    if s == "" then col else ColumnAfter(s[1..], Advance(s[0], col))
  }

  lemma {:induction false} ExpandConcat(s: string, t: string, col: nat)
    ensures ExpandFrom(s + t, col) == ExpandFrom(s, col) + ExpandFrom(t, ColumnAfter(s, col))
  {
    if s == "" {
      assert s + t == t;
    } else {
      assert (s + t)[1..] == s[1..] + t;
      ExpandConcat(s[1..], t, Advance(s[0], col));
    }
  }

  lemma {:induction false} ExpandWithoutTabs(s: string, col: nat)
    requires '\t' !in s
    ensures ExpandFrom(s, col) == s
  {
    if s != "" {
      ExpandWithoutTabs(s[1..], Advance(s[0], col));
      assert [s[0]] + s[1..] == s;
    }
  }

  lemma {:induction false} ExpandBlank(s: string, col: nat)
    requires Blank(s)
    ensures Blank(ExpandFrom(s, col))
  {
    if s != "" {
      ExpandBlank(s[1..], Advance(s[0], col));
    }
  }

  // Expansion leaves no tab, adds no line break and keeps what a string ends in.
  lemma {:induction false} ExpandChars(s: string, col: nat)
    ensures '\t' !in ExpandFrom(s, col)
    ensures '\n' !in s ==> '\n' !in ExpandFrom(s, col)
    ensures '\r' !in s ==> '\r' !in ExpandFrom(s, col)
    ensures |ExpandFrom(s, col)| >= |s|
  {
    if s != "" {
      ExpandChars(s[1..], Advance(s[0], col));
    }
  }

  lemma {:induction false} ColumnIsLength(head: string, col: nat)
    requires '\n' !in head && '\r' !in head
    ensures ColumnAfter(head, col) == col + |ExpandFrom(head, col)|
  {
    if head != "" {
      ColumnIsLength(head[1..], Advance(head[0], col));
    }
  }

  /** Expanded character by character: a tab adds one to four spaces, up to the next tab stop, and any other character
      of a line is kept. */
  lemma ExpandOneMore(head: string, c: char)
    requires '\n' !in head && '\r' !in head
    ensures var before, after := ExpandTabs(head), ExpandTabs(head + [c]);
            if c == '\t' then |before| < |after| <= |before| + 4 && |after| % 4 == 0 && after == before + Spaces(|after| - |before|)
            else after == before + [c]
  {
    ExpandConcat(head, [c], 0);
    ColumnIsLength(head, 0);
    assert ExpandFrom([c], ColumnAfter(head, 0)) == ExpandChar(c, ColumnAfter(head, 0)) + "";
  }

  lemma ExpandBreak(head: string, c: char)
    requires c != '\t'
    ensures ExpandTabs(head + [c]) == ExpandTabs(head) + [c]
  {
    ExpandConcat(head, [c], 0);
    assert ExpandFrom([c], ColumnAfter(head, 0)) == [c] + "";
  }

  /** After a line break the tab stops count anew. */
  lemma ExpandLines(head: string, c: char, tail: string)
    requires c == '\n' || c == '\r'
    ensures ExpandTabs(head + [c] + tail) == ExpandTabs(head) + [c] + ExpandTabs(tail)
  {
    ExpandConcat(head + [c], tail, 0);
    ExpandBreak(head, c);
    ColumnAfterBreak(head, c, 0);
  }

  lemma {:induction false} ColumnAfterBreak(head: string, c: char, col: nat)
    requires c == '\n' || c == '\r'
    ensures ColumnAfter(head + [c], col) == 0
  {
    if head == "" {
      assert (head + [c])[1..] == "";
    } else {
      assert (head + [c])[1..] == head[1..] + [c];
      ColumnAfterBreak(head[1..], c, Advance(head[0], col));
    }
  }

  /** The fixed line is the line up to its last character that is not white space, and a line break; the line is
      compliant when nothing but that break was there. */
  lemma WhitespaceKeepsText(line: string) returns (kept: string, tail: string)
    ensures line == kept + tail && Blank(tail) && (kept == "" || !IsSpace(kept[|kept| - 1]))
    ensures WhitespaceLine(line).fixed == kept + "\n"
    ensures WhitespaceLine(line).compliant <==> tail == "\n"
  {
    kept := RStrip(line);
    tail := RStripSplit(line);
    assert tail == line[|kept|..];
  }

  /** Tab expansion does not change what stripping leaves, unless a tab is inside it. */
  lemma ExpandKeepsStripped(line: string)
    requires '\t' !in Strip(line)
    ensures Strip(ExpandTabs(line)) == Strip(line)
  {
    var body := Strip(line);
    var lead, trail := StripSplit(line);
    var col := ColumnAfter(lead, 0);
    ExpandConcat(lead + body, trail, 0);
    ExpandConcat(lead, body, 0);
    ExpandWithoutTabs(body, col);
    ExpandBlank(lead, 0);
    ExpandBlank(trail, ColumnAfter(lead + body, 0));
    StripBlanks(ExpandFrom(lead, 0), body, ExpandFrom(trail, ColumnAfter(lead + body, 0)));
  }

  lemma RStripTwice(line: string)
    ensures RStrip(RStrip(line) + "\n") == RStrip(line)
  {
    var end := RStripSplit(line);
    RStripBlank(RStrip(line), "\n");
  }

  // A blank line is stripped to nothing, also once it has been trimmed.
  lemma BlankTrims(line: string)
    requires Blank(line)
    ensures Strip(RStrip(line) + "\n") == Strip(line) == ""
  {
    var end := RStripSplit(line);
    assert RStrip(line) == line[..|RStrip(line)|];
    BlankStrips(line);
    BlankStrips(RStrip(line) + "\n");
  }

  lemma RStripKeepsStripped(line: string)
    ensures Strip(RStrip(line) + "\n") == Strip(line)
  {
    var body := Strip(line);
    var lead, trail := StripSplit(line);
    if body == "" {
      assert line == lead + trail;
      BlankTrims(line);
    } else {
      RStripBlank(lead + body, trail);
      StripBlanks(lead, body, "\n");
    }
  }

  lemma BlankStrips(s: string)
    requires Blank(s)
    ensures Strip(s) == ""
  {
    StripBlanks(s, "", "");
    assert s == s + "" + "";
  }

  /** Expanding the tabs of a line without trailing white space leaves no trailing white space. */
  lemma TabsKeepWhitespace(line: string)
    requires WhitespaceLine(line).compliant
    ensures WhitespaceLine(TabsLine(line).fixed).compliant
  {
    if '\t' in line {
      var r := RStrip(line);
      var end := RStripSplit(line);
      ExpandConcat(r, "\n", 0);
      ExpandWithoutTabs("\n", ColumnAfter(r, 0));
      var e := ExpandFrom(r, 0);
      if r != "" {
        var last := r[|r| - 1];
        assert r == r[..|r| - 1] + [last];
        ExpandConcat(r[..|r| - 1], [last], 0);
        ExpandWithoutTabs([last], ColumnAfter(r[..|r| - 1], 0));
      }
      RStripBlank(e, "\n");
    }
  }

  // ---------- a list of lines ----------

  datatype Guard = On | Off | NoGuard

  /** What a line does to formatting, by its stripped text. */
  function GuardOf(line: string): Guard {
    var stripped := Strip(line);
    if stripped in GUARDS_ON then On else if stripped in GUARDS_OFF then Off else NoGuard
  }

  function Guards(lines: seq<string>): (gs: seq<Guard>)
    ensures |gs| == |lines|
  {
    if lines == [] then [] else Guards(lines[..|lines| - 1]) + [GuardOf(lines[|lines| - 1])]
  }

  lemma {:induction false} GuardsAt(lines: seq<string>)
    ensures forall i :: 0 <= i < |lines| ==> Guards(lines)[i] == GuardOf(lines[i])
  {
    if lines != [] {
      GuardsAt(lines[..|lines| - 1]);
    }
  }

  /** Whether formatting is on once the guards, if any, on the first n lines have been seen. */
  predicate EnabledAfter(gs: seq<Guard>, n: nat)
    requires n <= |gs|
  {
    n == 0 || gs[n - 1] == On || (gs[n - 1] == NoGuard && EnabledAfter(gs, n - 1))
  }

  // An off guard is still there, and another line has become a guard only where formatting was on.
  ghost predicate GuardKept(gs: seq<Guard>, hs: seq<Guard>, k: nat)
    requires k < |gs| == |hs|
  {
    (gs[k] == Off ==> hs[k] == Off) && (gs[k] != hs[k] ==> EnabledAfter(gs, k + 1))
  }

  ghost predicate GuardsKept(gs: seq<Guard>, hs: seq<Guard>) {
    |gs| == |hs| && forall k :: 0 <= k < |gs| ==> GuardKept(gs, hs, k)
  }

  // A later pass over such guards is never on where the earlier pass was off.
  lemma {:induction false} EnabledAgain(gs: seq<Guard>, hs: seq<Guard>, n: nat)
    requires GuardsKept(gs, hs) && n <= |gs| && EnabledAfter(hs, n)
    ensures EnabledAfter(gs, n)
  {
    if n > 0 {
      assert GuardKept(gs, hs, n - 1);
      if gs[n - 1] == NoGuard && hs[n - 1] == NoGuard {
        EnabledAgain(gs, hs, n - 1);
      }
    }
  }

  /** The lines that the check looks at: all of them, or those outside switched-off regions and the guards. */
  predicate Checked(respectGuards: bool, lines: seq<string>, i: nat)
    requires i < |lines|
  {
    !respectGuards || EnabledAfter(Guards(lines), i + 1) || Guards(lines)[i] == Off
  }

  predicate LineFine(check: LineCheck, respectGuards: bool, lines: seq<string>, i: nat)
    requires i < |lines|
  {
    Checked(respectGuards, lines, i) ==> check(lines[i]).compliant
  }

  predicate AllFine(check: LineCheck, respectGuards: bool, lines: seq<string>) {
    forall i :: 0 <= i < |lines| ==> LineFine(check, respectGuards, lines, i)
  }

  function FixLine(check: LineCheck, respectGuards: bool, lines: seq<string>, i: nat): string
    requires i < |lines|
  {
    if LineFine(check, respectGuards, lines, i) then lines[i] else check(lines[i]).fixed
  }

  function FixAll(check: LineCheck, respectGuards: bool, lines: seq<string>): (fixed: seq<string>)
    ensures |fixed| == |lines| && forall i :: 0 <= i < |lines| ==> fixed[i] == FixLine(check, respectGuards, lines, i)
  {
    seq(|lines|, i requires 0 <= i < |lines| => FixLine(check, respectGuards, lines, i))
  }

  // No guard itself, and the last guard before it is an off guard.
  ghost predicate SwitchedOff(gs: seq<Guard>, i: nat)
    requires i < |gs|
  {
    gs[i] == NoGuard && exists j :: 0 <= j < i && gs[j] == Off && forall k :: j < k < i ==> gs[k] == NoGuard
  }

  lemma {:induction false} LastGuard(gs: seq<Guard>, n: nat)
    requires n <= |gs| && !EnabledAfter(gs, n)
    ensures exists j :: 0 <= j < n && gs[j] == Off && forall k :: j < k < n ==> gs[k] == NoGuard
  {
    if gs[n - 1] == NoGuard {
      LastGuard(gs, n - 1);
    }
  }

  lemma {:induction false} StaysOff(gs: seq<Guard>, j: nat, n: nat)
    requires j < n <= |gs| && gs[j] == Off && forall k :: j < k < n ==> gs[k] == NoGuard
    ensures !EnabledAfter(gs, n)
  {
    if j < n - 1 {
      StaysOff(gs, j, n - 1);
    }
  }

  lemma UncheckedMeans(gs: seq<Guard>, i: nat)
    requires i < |gs|
    ensures SwitchedOff(gs, i) <==> !EnabledAfter(gs, i + 1) && gs[i] != Off
  {
    if gs[i] == NoGuard {
      if EnabledAfter(gs, i) {
        if j :| 0 <= j < i && gs[j] == Off && forall k :: j < k < i ==> gs[k] == NoGuard {
          StaysOff(gs, j, i);
        }
      } else {
        LastGuard(gs, i);
      }
    }
  }

  /** Fixing leaves every line in a switched-off region, and every compliant one, as it was, and gives each other line
      its own fix. */
  lemma FixChangesOnlyFaults(check: LineCheck, respectGuards: bool, lines: seq<string>, i: nat)
    requires i < |lines|
    ensures var off := respectGuards && SwitchedOff(Guards(lines), i);
            FixAll(check, respectGuards, lines)[i] == if off || check(lines[i]).compliant then lines[i] else check(lines[i]).fixed
  {
    UncheckedMeans(Guards(lines), i);
  }

  lemma GuardHasNoTab(line: string)
    requires GuardOf(line) != NoGuard
    ensures '\t' !in Strip(line)
  {
    assert '\t' !in GUARDS_OFF[0] && '\t' !in GUARDS_OFF[1] && '\t' !in GUARDS_OFF[2];
    assert '\t' !in GUARDS_ON[0] && '\t' !in GUARDS_ON[1] && '\t' !in GUARDS_ON[2];
  }

  /** What the checks that can fix promise line by line: a fixed line is compliant, and an off guard stays one. */
  ghost predicate Repairs(check: LineCheck) {
    && (forall line :: check(check(line).fixed).compliant)
    && (forall line :: GuardOf(line) == Off ==> GuardOf(check(line).fixed) == Off)
  }

  lemma WhitespaceRepairs()
    ensures Repairs(WhitespaceLine)
  {
    forall line
      ensures WhitespaceLine(WhitespaceLine(line).fixed).compliant
      ensures GuardOf(line) == GuardOf(WhitespaceLine(line).fixed)
    {
      RStripTwice(line);
      RStripKeepsStripped(line);
    }
  }

  lemma TabsRepairs()
    ensures Repairs(TabsLine)
  {
    forall line
      ensures TabsLine(TabsLine(line).fixed).compliant
    {
      ExpandChars(line, 0);
    }
    forall line | GuardOf(line) == Off
      ensures GuardOf(TabsLine(line).fixed) == Off
    {
      GuardHasNoTab(line);
      ExpandKeepsStripped(line);
    }
  }

  // Fixing keeps the off guards there are, and makes new guards only where formatting was on.
  lemma FixGuards(check: LineCheck, lines: seq<string>, i: nat)
    requires Repairs(check) && i < |lines|
    ensures GuardKept(Guards(lines), Guards(FixAll(check, true, lines)), i)
  {
    GuardsAt(lines);
    GuardsAt(FixAll(check, true, lines));
  }

  lemma FixKeepsGuards(check: LineCheck, lines: seq<string>)
    requires Repairs(check)
    ensures GuardsKept(Guards(lines), Guards(FixAll(check, true, lines)))
  {
    forall k | 0 <= k < |lines|
      ensures GuardKept(Guards(lines), Guards(FixAll(check, true, lines)), k)
    {
      FixGuards(check, lines, k);
    }
  }

  lemma SeenAgain(gs: seq<Guard>, hs: seq<Guard>, i: nat)
    requires GuardsKept(gs, hs) && i < |gs|
    ensures EnabledAfter(hs, i + 1) || hs[i] == Off ==> EnabledAfter(gs, i + 1) || gs[i] == Off
  {
    assert GuardKept(gs, hs, i);
    if EnabledAfter(hs, i + 1) {
      EnabledAgain(gs, hs, i + 1);
    }
  }

  /** The lines looked at on a second pass were looked at on the first. */
  lemma CheckedAgain(check: LineCheck, lines: seq<string>, i: nat)
    requires Repairs(check) && i < |lines|
    ensures var fixed := FixAll(check, true, lines);
            Checked(true, fixed, i) ==> Checked(true, lines, i)
  {
    FixKeepsGuards(check, lines);
    SeenAgain(Guards(lines), Guards(FixAll(check, true, lines)), i);
  }

  /** After a fix every line the check looks at is compliant, and fixing again changes nothing. */
  lemma FixedAllFine(check: LineCheck, respectGuards: bool, lines: seq<string>)
    requires Repairs(check)
    ensures var fixed := FixAll(check, respectGuards, lines);
            AllFine(check, respectGuards, fixed) && FixAll(check, respectGuards, fixed) == fixed
  {
    var fixed := FixAll(check, respectGuards, lines);
    forall i | 0 <= i < |lines|
      ensures LineFine(check, respectGuards, fixed, i)
    {
      assert check(check(lines[i]).fixed).compliant;
      if respectGuards {
        CheckedAgain(check, lines, i);
      }
    }
  }

  // ---------- a file ----------

  // Reading in text mode: every line end becomes a line feed.
  function Universal(text: string): (r: string)
    ensures '\r' !in r
    ensures '\r' !in text ==> r == text
  {
    if text == "" then ""
    else if text[0] == '\r' then
      "\n" + Universal(if |text| > 1 && text[1] == '\n' then text[2..] else text[1..])
    else
      [text[0]] + Universal(text[1..])
  }

  lemma {:induction false} UniversalPrefix(before: string, rest: string)
    requires '\r' !in before
    ensures Universal(before + rest) == before + Universal(rest)
  {
    if before == "" {
      assert before + rest == rest;
    } else {
      var text, tail := before + rest, before[1..];
      UniversalPrefix(tail, rest);
      Prepend(before, Universal(rest));
      assert text[0] == before[0] && text[1..] == tail + rest;
    }
  }

  lemma Prepend(before: string, rest: string)
    requires before != ""
    ensures [before[0]] + (before[1..] + rest) == before + rest
  {
  }

  /** A carriage return, with the line feed after it if there is one, is read as one line feed. */
  lemma LineEndsAreOne(before: string, after: string)
    requires '\r' !in before
    ensures Universal(before + ("\r\n" + after)) == before + ("\n" + Universal(after))
    ensures after == "" || after[0] != '\n' ==> Universal(before + ("\r" + after)) == before + ("\n" + Universal(after))
  {
    UniversalPrefix(before, "\r\n" + after);
    UniversalPrefix(before, "\r" + after);
    assert ("\r\n" + after)[2..] == after && ("\r" + after)[1..] == after;
  }

  // readlines: each line keeps its line feed.
  function SplitLines(text: string): seq<string> {
    if text == "" then []
    else
      var rest := SplitLines(text[1..]);
      if text[0] == '\n' || rest == [] then [[text[0]]] + rest else [[text[0]] + rest[0]] + rest[1..]
  }

  function ReadLines(text: string): seq<string> { SplitLines(Universal(text)) }

  function WriteLines(lines: seq<string>): string {
    if lines == [] then "" else lines[0] + WriteLines(lines[1..])
  }

  // A line as read: a line feed at its end only, which the last line may lack.
  predicate IsLine(line: string, isLast: bool) {
    && line != "" && '\r' !in line && '\n' !in line[..|line| - 1]
    && (isLast || line[|line| - 1] == '\n')
  }

  predicate AreLines(lines: seq<string>) {
    forall i :: 0 <= i < |lines| ==> IsLine(lines[i], i == |lines| - 1)
  }

  lemma {:induction false} SplitGivesLines(text: string)
    requires '\r' !in text
    ensures AreLines(SplitLines(text))
  {
    if text != "" {
      SplitGivesLines(text[1..]);
      var rest := SplitLines(text[1..]);
      if text[0] != '\n' && rest != [] {
        assert IsLine(rest[0], 0 == |rest| - 1);
        var first := [text[0]] + rest[0];
        assert first[..|first| - 1] == [text[0]] + rest[0][..|rest[0]| - 1];
      }
    }
  }

  lemma {:induction false} SplitLine(line: string, rest: string)
    requires IsLine(line, rest == "")
    ensures SplitLines(line + rest) == [line] + SplitLines(rest)
  {
    var text := line + rest;
    assert text[1..] == line[1..] + rest;
    if |line| > 1 {
      assert line[1..][..|line| - 2] == line[..|line| - 1][1..];
      assert line[0] == line[..|line| - 1][0];
      SplitLine(line[1..], rest);
      assert [line[0]] + line[1..] == line;
    } else {
      assert line == [line[0]] && line[1..] + rest == rest;
    }
  }

  lemma {:induction false} WrittenLinesReadBack(lines: seq<string>)
    requires AreLines(lines)
    ensures '\r' !in WriteLines(lines) && SplitLines(WriteLines(lines)) == lines
    ensures lines != [] ==> WriteLines(lines) != ""
  {
    if lines != [] {
      var rest := lines[1..];
      forall i | 0 <= i < |rest|
        ensures IsLine(rest[i], i == |rest| - 1)
      {
        assert IsLine(lines[i + 1], i + 1 == |lines| - 1);
      }
      WrittenLinesReadBack(rest);
      assert IsLine(lines[0], 0 == |lines| - 1);
      SplitLine(lines[0], WriteLines(rest));
    }
  }

  lemma TrimmedIsLine(line: string, isLast: bool)
    requires IsLine(line, isLast)
    ensures IsLine(RStrip(line) + "\n", isLast)
  {
    var kept := RStrip(line);
    var end := RStripSplit(line);
    assert kept == line[..|kept|] && (kept + "\n")[..|kept|] == kept;
    if kept == line {
      assert line[|line| - 1] != '\n' by { assert !IsSpace(line[|line| - 1]) && IsSpace('\n'); }
    } else {
      assert kept == line[..|line| - 1][..|kept|];
    }
  }

  lemma ExpandedIsLine(line: string, isLast: bool)
    requires IsLine(line, isLast)
    ensures IsLine(ExpandTabs(line), isLast)
  {
    var front, last := line[..|line| - 1], line[|line| - 1];
    var col := ColumnAfter(front, 0);
    assert line == front + [last];
    ExpandConcat(front, [last], 0);
    ExpandChars(front, 0);
    ExpandChars(line, 0);
    assert [last][1..] == "" && ExpandFrom([last], col) == ExpandChar(last, col) + "";
    var fixed := ExpandFrom(front, 0) + ExpandChar(last, col);
    assert ExpandTabs(line) == fixed;
    if last != '\t' {
      assert fixed[..|fixed| - 1] == ExpandFrom(front, 0);
    }
  }

  ghost predicate KeepsLines(check: LineCheck) {
    forall line, isLast :: IsLine(line, isLast) ==> IsLine(check(line).fixed, isLast)
  }

  lemma ChecksKeepLines()
    ensures KeepsLines(WhitespaceLine) && KeepsLines(TabsLine)
  {
    forall line, isLast | IsLine(line, isLast)
      ensures IsLine(WhitespaceLine(line).fixed, isLast) && IsLine(TabsLine(line).fixed, isLast)
    {
      TrimmedIsLine(line, isLast);
      ExpandedIsLine(line, isLast);
    }
  }

  lemma FixedAreLines(check: LineCheck, respectGuards: bool, lines: seq<string>)
    requires KeepsLines(check) && AreLines(lines)
    ensures AreLines(FixAll(check, respectGuards, lines))
  {
    var fixed := FixAll(check, respectGuards, lines);
    forall i | 0 <= i < |lines|
      ensures IsLine(fixed[i], i == |lines| - 1)
    {
      assert IsLine(lines[i], i == |lines| - 1);
    }
  }

  predicate FileFine(check: LineCheck, respectGuards: bool, text: string) {
    AllFine(check, respectGuards, ReadLines(text))
  }

  function FixedText(check: LineCheck, respectGuards: bool, text: string): string {
    if FileFine(check, respectGuards, text) then text
    else WriteLines(FixAll(check, respectGuards, ReadLines(text)))
  }

  // The guard test at the head of the loop: whether formatting is on now, and whether to look at the line.
  method SeeGuard(line: string, respectGuards: bool, enabled: bool, ghost g: Guard) returns (now: bool, look: bool)
    requires g == GuardOf(line)
    ensures respectGuards ==> now == (g == On || (g == NoGuard && enabled))
    ensures look == (!respectGuards || now || g == Off)
  {
    now, look := enabled, true;
    if respectGuards {
      var lineStripped := Strip(line);
      if lineStripped in GUARDS_ON {
        now := true;
      } else if lineStripped in GUARDS_OFF {
        now := false;
      }
      if !now && !(lineStripped in GUARDS_ON || lineStripped in GUARDS_OFF) {
        look := false;
      }
    }
  }

  // Whether the first n lines are fine, line by line.
  ghost predicate FineFirst(check: LineCheck, respectGuards: bool, lines: seq<string>, n: nat)
    requires n <= |lines|
  {
    n == 0 || (FineFirst(check, respectGuards, lines, n - 1) && LineFine(check, respectGuards, lines, n - 1))
  }

  lemma {:induction false} FirstLines(check: LineCheck, respectGuards: bool, lines: seq<string>, n: nat)
    requires n <= |lines|
    ensures FineFirst(check, respectGuards, lines, n) <==> forall i :: 0 <= i < n ==> LineFine(check, respectGuards, lines, i)
  {
    if n > 0 {
      FirstLines(check, respectGuards, lines, n - 1);
    }
  }

  lemma {:induction false} StaysBad(check: LineCheck, respectGuards: bool, lines: seq<string>, i: nat, n: nat)
    requires i <= n <= |lines| && !FineFirst(check, respectGuards, lines, i)
    ensures !FineFirst(check, respectGuards, lines, n)
  {
    if i < n {
      StaysBad(check, respectGuards, lines, i, n - 1);
    }
  }

  // The lines of a file of which the first i have been seen.
  ghost function Halfway(check: LineCheck, respectGuards: bool, source: seq<string>, i: nat): (lines: seq<string>)
    requires i <= |source|
    ensures |lines| == |source|
  {
    if i == 0 then source
    else Halfway(check, respectGuards, source, i - 1)[i - 1 := FixLine(check, respectGuards, source, i - 1)]
  }

  lemma {:induction false} HalfwayAt(check: LineCheck, respectGuards: bool, source: seq<string>, i: nat, k: nat)
    requires i <= |source| && k < |source|
    ensures Halfway(check, respectGuards, source, i)[k] == if k < i then FixLine(check, respectGuards, source, k) else source[k]
  {
    if i > 0 {
      HalfwayAt(check, respectGuards, source, i - 1, k);
    }
  }

  lemma HalfwayDone(check: LineCheck, respectGuards: bool, source: seq<string>)
    ensures Halfway(check, respectGuards, source, |source|) == FixAll(check, respectGuards, source)
  {
    forall k | 0 <= k < |source|
      ensures Halfway(check, respectGuards, source, |source|)[k] == FixLine(check, respectGuards, source, k)
    {
      HalfwayAt(check, respectGuards, source, |source|, k);
    }
  }

  // The loop body: the guard test, then the check of the line, which is replaced when it is looked at and
  // not compliant.
  method CheckOne(fileLines: array<string>, i: nat, enabled: bool, compliant: bool, respectGuards: bool, check: LineCheck,
                  ghost source: seq<string>)
    returns (now: bool, fine: bool)
    requires i < |source| && fileLines[..] == Halfway(check, respectGuards, source, i)
    requires respectGuards ==> enabled == EnabledAfter(Guards(source), i)
    requires compliant == FineFirst(check, respectGuards, source, i)
    modifies fileLines
    ensures respectGuards ==> now == EnabledAfter(Guards(source), i + 1)
    ensures (compliant && fine) == FineFirst(check, respectGuards, source, i + 1)
    ensures fileLines[..] == Halfway(check, respectGuards, source, i + 1)
  {
    var look;
    GuardsAt(source);
    HalfwayAt(check, respectGuards, source, i, i);
    ghost var lines := fileLines[..];
    assert fileLines[i] == lines[i] == source[i];
    now, look := SeeGuard(fileLines[i], respectGuards, enabled, Guards(source)[i]);
    fine := true;
    if look {
      var result := check(fileLines[i]);
      if !result.compliant {
        fine := false;
        fileLines[i] := result.fixed;
      }
    }
    assert fileLines[..] == lines[i := FixLine(check, respectGuards, source, i)];
  }

  /** The loop over the lines, changing them in place. A check that is neither fixing nor verbose stops at
      the first bad line. */
  method CheckLines(fileLines: array<string>, fix: bool, verbose: bool, respectGuards: bool, check: LineCheck)
    returns (compliant: bool)
    modifies fileLines
    ensures compliant == FineFirst(check, respectGuards, old(fileLines[..]), fileLines.Length)
    ensures fix ==> fileLines[..] == FixAll(check, respectGuards, old(fileLines[..]))
  {
    ghost var source := fileLines[..];
    compliant := true;
    var enabled := true;
    var i := 0;
    HalfwayDone(check, respectGuards, source);
    while i < fileLines.Length
      invariant 0 <= i <= |source| == fileLines.Length
      invariant respectGuards ==> enabled == EnabledAfter(Guards(source), i)
      invariant compliant == FineFirst(check, respectGuards, source, i)
      invariant fileLines[..] == Halfway(check, respectGuards, source, i)
    {
      var fine;
      enabled, fine := CheckOne(fileLines, i, enabled, compliant, respectGuards, check, source);
      if !fine {
        compliant := false;
        if !fix && !verbose {
          StaysBad(check, respectGuards, source, i + 1, |source|);
          return;
        }
      }
      i := i + 1;
    }
  }

  /** One run over a file, which is rewritten only in fix mode and only when some line was not compliant. */
  method CheckManuallyFile(text: string, fix: bool, verbose: bool, respectGuards: bool, check: LineCheck)
    returns (compliant: bool, newText: string)
    ensures compliant == FileFine(check, respectGuards, text)
    ensures newText == if fix then FixedText(check, respectGuards, text) else text
  {
    var source := ReadLines(text);
    var fileLines := new string[|source|](i requires 0 <= i < |source| => source[i]);
    assert fileLines[..] == source;
    compliant := CheckLines(fileLines, fix, verbose, respectGuards, check);
    FirstLines(check, respectGuards, source, |source|);
    newText := text;
    if fix && !compliant {
      newText := WriteLines(fileLines[..]);
    }
  }

  lemma FixedTextReads(check: LineCheck, respectGuards: bool, text: string)
    requires KeepsLines(check)
    ensures ReadLines(FixedText(check, respectGuards, text)) == FixAll(check, respectGuards, ReadLines(text))
  {
    var lines := ReadLines(text);
    SplitGivesLines(Universal(text));
    if FileFine(check, respectGuards, text) {
      assert FixAll(check, respectGuards, lines) == lines;
    } else {
      FixedAreLines(check, respectGuards, lines);
      WrittenLinesReadBack(FixAll(check, respectGuards, lines));
    }
  }

  /** A second run after a fix reports the file compliant and changes nothing, also when fixing has made a
      guard of a line. This holds for every check that repairs lines. */
  lemma FixIsIdempotent(check: LineCheck, respectGuards: bool, text: string)
    requires Repairs(check) && KeepsLines(check)
    ensures var fixed := FixedText(check, respectGuards, text);
            FileFine(check, respectGuards, fixed) && FixedText(check, respectGuards, fixed) == fixed
  {
    FixedTextReads(check, respectGuards, text);
    FixedAllFine(check, respectGuards, ReadLines(text));
  }

  /** The white-space check, which ignores guards, and then the tabs check, which respects them: each is
      idempotent, and the tabs fix keeps the white-space check satisfied, so at the end both hold. */
  lemma WhitespaceThenTabs(text: string)
    ensures var clean := FixedText(WhitespaceLine, false, text);
            var fixed := FixedText(TabsLine, true, clean);
            && FileFine(WhitespaceLine, false, clean) && FixedText(WhitespaceLine, false, clean) == clean
            && FileFine(TabsLine, true, fixed) && FixedText(TabsLine, true, fixed) == fixed
            && FileFine(WhitespaceLine, false, fixed)
  {
    var clean := FixedText(WhitespaceLine, false, text);
    WhitespaceRepairs();
    TabsRepairs();
    ChecksKeepLines();
    FixIsIdempotent(WhitespaceLine, false, text);
    FixIsIdempotent(TabsLine, true, clean);
    FixedTextReads(TabsLine, true, clean);
    TabsKeepFileClean(ReadLines(clean));
  }

  lemma TabsKeepFileClean(lines: seq<string>)
    requires AllFine(WhitespaceLine, false, lines)
    ensures AllFine(WhitespaceLine, false, FixAll(TabsLine, true, lines))
  {
    var fixed := FixAll(TabsLine, true, lines);
    forall i | 0 <= i < |lines|
      ensures LineFine(WhitespaceLine, false, fixed, i)
    {
      assert LineFine(WhitespaceLine, false, lines, i);
      TabsKeepWhitespace(lines[i]);
    }
  }

  // Expanding a tab in column 15 leaves one space.
  lemma TabInColumn15(head: string, tail: string)
    requires |head| == 15 && '\t' !in head && '\n' !in head && '\r' !in head && '\t' !in tail
    ensures ExpandTabs(head + "\t" + tail) == head + " " + tail
  {
    PlainColumn(head, 0);
    ExpandConcat(head + "\t", tail, 0);
    ExpandConcat(head, "\t", 0);
    ExpandWithoutTabs(head, 0);
    ExpandWithoutTabs(tail, ColumnAfter(head + "\t", 0));
    assert ExpandFrom("\t", 15) == ExpandChar('\t', 15) + "";
    assert ExpandChar('\t', 15) == " ";
  }

  lemma TabInsideIsNoGuard(line: string)
    requires Stripped(line) && '\t' in line
    ensures GuardOf(line) == NoGuard
  {
    assert "" + line + "" == line;
    StripBlanks("", line, "");
    if GuardOf(line) != NoGuard {
      GuardHasNoTab(line);
    }
  }

  /** Expanding a tab can make a guard: the line was looked at as an ordinary one and switches the check
      off for what follows on the next run. */
  lemma TabMakesGuard()
    ensures GuardOf("// clang-format" + "\t" + "off") == NoGuard
    ensures ExpandTabs("// clang-format" + "\t" + "off") == "// clang-format" + " " + "off" == GUARDS_OFF[0]
  {
    TabInColumn15("// clang-format", "off");
    var line := "// clang-format" + "\t" + "off";
    assert line[15] == '\t' && line[0] == '/' && line[18] == 'f';
    TabInsideIsNoGuard(line);
  }

  lemma {:induction false} PlainColumn(s: string, col: nat)
    requires '\t' !in s && '\n' !in s && '\r' !in s
    ensures ColumnAfter(s, col) == col + |s|
  {
    if s != "" {
      PlainColumn(s[1..], col + 1);
    }
  }
}
