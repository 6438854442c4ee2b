/** The two parsers of `git diff --unified=0` output: the drift auditor's and the staged scanner's. */
module DiffParsers {
  import opened Text

  // ---------------------------------------------------------------- the hunk-header pattern

  /** One or more digits, and what follows them. */
  function TakeNumber(s: string): Option<(nat, string)> {
    var n := DigitRun(s);
    if n == 0 then None else Some((NatValue(s[..n]), s[n..]))
  }

  /** What follows an optional comma and number. */
  function SkipCount(s: string): string {
    if "," <= s && DigitRun(s[1..]) > 0 then s[1 + DigitRun(s[1..])..] else s
  }

  /** What follows `@@ -`, the old range and ` +`. */
  function AfterOldRange(line: string): Option<string> {
    if !("@@ -" <= line) then None
    else match TakeNumber(line[4..])
      case None => None
      case Some(before) =>
        var tail := SkipCount(before.1);
        if " +" <= tail then Some(tail[2..]) else None
  }

  /** The new start, provided its range is closed by ` @@`. */
  function NewRange(s: string): Option<nat> {
    match TakeNumber(s)
    case None => None
    case Some(after) => if " @@" <= SkipCount(after.1) then Some(after.0) else None
  }

  /** The number captured by the auditor's hunk pattern, or None when the line does not match. */
  function HunkStart(line: string): Option<nat> {
    match AfterOldRange(line)
    case None => None
    case Some(s) => NewRange(s)
  }

  predicate Number(s: string) {
    s != "" && AllDigits(s)
  }

  predicate OptionalCount(s: string) {
    s == "" || (s[0] == ',' && Number(s[1..]))
  }

  /** The pattern read as a grammar: five pieces around fixed punctuation. */
  ghost predicate HunkShape(line: string, a: string, b: string, c: string, d: string, rest: string) {
    && Number(a) && OptionalCount(b) && Number(c) && OptionalCount(d)
    && line == "@@ -" + a + b + " +" + c + d + " @@" + rest
  }

  lemma TakeNumberOf(digits: string, rest: string)
    requires Number(digits) && (rest != "" ==> !IsDigit(rest[0]))
    ensures TakeNumber(digits + rest) == Some((NatValue(digits), rest))
  {
    DigitRunOf(digits, rest);
    assert (digits + rest)[..|digits|] == digits;
    assert (digits + rest)[|digits|..] == rest;
  }

  lemma SkipCountOf(count: string, rest: string)
    requires OptionalCount(count)
    requires rest != "" && !IsDigit(rest[0]) && rest[0] != ','
    ensures SkipCount(count + rest) == rest
  {
    if count == "" {
      assert count + rest == rest;
    } else {
      assert (count + rest)[1..] == count[1..] + rest;
      DigitRunOf(count[1..], rest);
      assert (count + rest)[|count|..] == rest;
    }
  }

  lemma AfterOldRangeOf(a: string, b: string, s: string)
    requires Number(a) && OptionalCount(b)
    ensures AfterOldRange("@@ -" + (a + (b + (" +" + s)))) == Some(s)
  {
    var tail := " +" + s;
    assert ("@@ -" + (a + (b + tail)))[4..] == a + (b + tail);
    TakeNumberOf(a, b + tail);
    SkipCountOf(b, tail);
    assert tail[2..] == s;
  }

  lemma NewRangeOf(c: string, d: string, rest: string)
    requires Number(c) && OptionalCount(d)
    ensures NewRange(c + (d + (" @@" + rest))) == Some(NatValue(c))
  {
    var tail := " @@" + rest;
    TakeNumberOf(c, d + tail);
    SkipCountOf(d, tail);
  }

  lemma HunkStartOf(line: string, a: string, b: string, c: string, d: string, rest: string)
    requires HunkShape(line, a, b, c, d, rest)
    ensures HunkStart(line) == Some(NatValue(c))
  {
    var s := c + (d + (" @@" + rest));
    AfterOldRangeOf(a, b, s);
    NewRangeOf(c, d, rest);
    Glue(line, a, b, c, d, rest, s);
  }

  lemma Glue(line: string, a: string, b: string, c: string, d: string, rest: string, s: string)
    requires s == c + (d + (" @@" + rest))
    ensures "@@ -" + (a + (b + (" +" + s))) == "@@ -" + a + b + " +" + c + d + " @@" + rest
  {
    assert s == c + d + " @@" + rest;
    assert a + (b + (" +" + s)) == a + b + " +" + c + d + " @@" + rest;
  }

  /** The optional count that `SkipCount` passed over. */
  lemma SkipCountParts(s: string) returns (count: string)
    ensures OptionalCount(count) && s == count + SkipCount(s)
  {
    count := s[..|s| - |SkipCount(s)|];
    if "," <= s && DigitRun(s[1..]) > 0 {
      var n := DigitRun(s[1..]);
      assert count == s[..1 + n];
      assert count[1..] == s[1..][..n];
    }
  }

  lemma TakeNumberParts(s: string) returns (digits: string)
    requires TakeNumber(s).Some?
    ensures Number(digits) && s == digits + TakeNumber(s).value.1
    ensures TakeNumber(s).value.0 == NatValue(digits)
  {
    digits := s[..DigitRun(s)];
  }

  lemma AfterOldRangeParts(line: string) returns (a: string, b: string)
    requires AfterOldRange(line).Some?
    ensures Number(a) && OptionalCount(b)
    ensures line == "@@ -" + (a + (b + (" +" + AfterOldRange(line).value)))
  {
    a := TakeNumberParts(line[4..]);
    var tail := TakeNumber(line[4..]).value.1;
    b := SkipCountParts(tail);
    assert SkipCount(tail) == " +" + SkipCount(tail)[2..];
    assert line == "@@ -" + line[4..];
  }

  lemma NewRangeIs(s: string)
    requires NewRange(s).Some?
    ensures TakeNumber(s).Some? && NewRange(s) == Some(TakeNumber(s).value.0)
    ensures " @@" <= SkipCount(TakeNumber(s).value.1)
  {
    hide TakeNumber, SkipCount;
  }

  lemma NewRangeParts(s: string) returns (c: string, d: string, rest: string)
    requires NewRange(s).Some?
    ensures Number(c) && OptionalCount(d)
    ensures s == c + (d + (" @@" + rest)) && NewRange(s) == Some(NatValue(c))
  {
    NewRangeIs(s);
    hide TakeNumber, NatValue, Number, SkipCount, OptionalCount, NewRange;
    c := TakeNumberParts(s);
    var tail := TakeNumber(s).value.1;
    d := SkipCountParts(tail);
    var closed := SkipCount(tail);
    rest := closed[3..];
    assert closed == " @@" + rest;
  }

  lemma HunkStartParts(line: string) returns (a: string, b: string, c: string, d: string, rest: string)
    requires HunkStart(line).Some?
    ensures HunkShape(line, a, b, c, d, rest) && HunkStart(line) == Some(NatValue(c))
  {
    var s := AfterOldRange(line).value;
    a, b := AfterOldRangeParts(line);
    c, d, rest := NewRangeParts(s);
    Glue(line, a, b, c, d, rest, s);
  }

  /** The recogniser accepts exactly the lines of the grammar and captures the new-file start. */
  lemma HunkStartIsPattern(line: string, v: nat)
    ensures HunkStart(line) == Some(v) <==>
            exists a, b, c, d, rest :: HunkShape(line, a, b, c, d, rest) && NatValue(c) == v
  {
    if HunkStart(line) == Some(v) {
      var a, b, c, d, rest := HunkStartParts(line);
    }
    if a, b, c, d, rest :| HunkShape(line, a, b, c, d, rest) && NatValue(c) == v {
      HunkStartOf(line, a, b, c, d, rest);
    }
  }

  // ---------------------------------------------------------------- the drift auditor

  datatype Added = Added(file: string, line: nat, text: string)
  datatype AuditState = AuditState(file: Option<string>, newLine: nat, added: seq<Added>)

  const AUDIT_START := AuditState(None, 0, [])

  function AuditStep(st: AuditState, line: string): AuditState {
    if "diff --git" <= line then st.(file := None)
    else if "+++ b/" <= line then st.(file := Some(line[6..]))
    else if "+++ " <= line then st.(file := None)
    else match HunkStart(line)
      case Some(n) => st.(newLine := n)
      case None =>
        if "+" <= line && !("+++" <= line) then
          var added := if st.file.Some? && st.file.value != ""
                       then st.added + [Added(st.file.value, st.newLine, line[1..])] else st.added;
          AuditState(st.file, st.newLine + 1, added)
        else st
  }

  function AuditRun(st: AuditState, lines: seq<string>): AuditState
    decreases |lines|
  {
    if lines == [] then st else AuditRun(AuditStep(st, lines[0]), lines[1..])
  }

  /** What `subprocess.run(.., text=True)` makes of git's output: a carriage return, alone or before a
      line feed, becomes one line feed. */
  function Translated(s: string): string
    decreases |s|
  {
    if s == "" then ""
    else if s[0] == '\r' then ['\n'] + Translated(if |s| > 1 && s[1] == '\n' then s[2..] else s[1..])
    else [s[0]] + Translated(s[1..])
  }

  /** `parse_added`, given what git writes. */
  method ParseAdded(output: string) returns (added: seq<Added>)
    ensures added == AuditRun(AUDIT_START, Split(Translated(output), '\n')).added
  {
    var raw := Translated(output);
    added := [];
    var file: Option<string> := None;
    var newLine: nat := 0;
    var lines := Split(raw, '\n');
    for i := 0 to |lines|
      invariant AuditRun(AuditState(file, newLine, added), lines[i..]) == AuditRun(AUDIT_START, lines)
    {
      var line := lines[i];
      assert lines[i..][1..] == lines[i + 1..];
      if "diff --git" <= line {
        file := None;
      } else if "+++ b/" <= line {
        file := Some(line[6..]);
      } else if "+++ " <= line {
        file := None;
      } else {
        var m := HunkStart(line);
        if m.Some? {
          newLine := m.value;
        } else if "+" <= line && !("+++" <= line) {
          if file.Some? && file.value != "" {
            added := added + [Added(file.value, newLine, line[1..])];
          }
          newLine := newLine + 1;
        }
      }
    }
  }

  // ---------------------------------------------------------------- the staged scanner

  /** The line boundaries of `str.splitlines`. */
  predicate IsBreak(c: char) {
    || '\n' <= c <= '\r'
    || '\U{1c}' <= c <= '\U{1e}'
    || c == '\U{85}' || c == '\U{2028}' || c == '\U{2029}'
  }

  function FindBreak(s: string): (n: nat)
    ensures n <= |s| && forall k :: 0 <= k < n ==> !IsBreak(s[k])
    ensures n < |s| ==> IsBreak(s[n])
  {
    if s == "" || IsBreak(s[0]) then 0
    else
      assert forall i :: 0 < i < |s| ==> s[i] == s[1..][i - 1];
      1 + FindBreak(s[1..])
  }

  /** `s.splitlines()`: a carriage return and line feed make one boundary, and a final
      boundary opens no further line. */
  function SplitLines(s: string): (lines: seq<string>)
    ensures forall l :: l in lines ==> Lacks(l, IsBreak)
    decreases |s|
  {
    if s == "" then []
    else
      var i := FindBreak(s);
      if i == |s| then [s]
      else
        var next := if s[i] == '\r' && i + 1 < |s| && s[i + 1] == '\n' then i + 2 else i + 1;
        [s[..i]] + SplitLines(s[next..])
  }

  /** First `+` that is followed by digits, and the number those digits print. */
  function PlusNumber(line: string): Option<nat> {
    if line == "" then None
    else if line[0] == '+' && DigitRun(line[1..]) > 0 then Some(NatValue(line[1..][..DigitRun(line[1..])]))
    else PlusNumber(line[1..])
  }

  /** One line and the boundary that ends it. */
  datatype Ended = Ended(line: string, end: string)

  predicate IsEnded(p: Ended) {
    && Lacks(p.line, IsBreak)
    && (p.end == "\r\n" ||
        (|p.end| == 1 &&
         p.end[0] as int in {0x0A, 0x0B, 0x0C, 0x0D, 0x1C, 0x1D, 0x1E, 0x85, 0x2028, 0x2029}))
  }

  function EndedText(ps: seq<Ended>, last: string): string {
    if ps == [] then last else ps[0].line + ps[0].end + EndedText(ps[1..], last)
  }

  function EndedLines(ps: seq<Ended>, last: string): seq<string> {
    if ps == [] then (if last == "" then [] else [last]) else [ps[0].line] + EndedLines(ps[1..], last)
  }

  /** Every line ends at a boundary, and no boundary is torn: behind a lone return stands no line feed. */
  ghost predicate AreEnded(ps: seq<Ended>, last: string) {
    && (forall i :: 0 <= i < |ps| ==> IsEnded(ps[i])) && Lacks(last, IsBreak)
    && forall i :: 0 <= i < |ps| && ps[i].end == "\r" ==> !("\n" <= EndedText(ps[i + 1..], last))
  }

  lemma FindBreakAt(line: string, tail: string)
    requires Lacks(line, IsBreak) && tail != "" && IsBreak(tail[0])
    ensures FindBreak(line + tail) == |line|
  {
    var s := line + tail;
    assert s[|line|] == tail[0];
    assert forall k :: 0 <= k < |line| ==> s[k] == line[k];
    hide FindBreak;
  }

  lemma EndedRest(ps: seq<Ended>, last: string)
    requires ps != [] && AreEnded(ps, last)
    ensures AreEnded(ps[1..], last) && IsEnded(ps[0])
    ensures ps[0].end == "\r" ==> !("\n" <= EndedText(ps[1..], last))
  {
    hide IsEnded, EndedText;
    assert forall i :: 0 <= i < |ps| - 1 ==> ps[1..][i] == ps[i + 1] && ps[1..][i + 1..] == ps[i + 1..][1..];
  }

  lemma EndedFirst(ps: seq<Ended>, last: string)
    requires ps != [] && AreEnded(ps, last)
    ensures AreEnded(ps[1..], last)
    ensures SplitLines(EndedText(ps, last)) == [ps[0].line] + SplitLines(EndedText(ps[1..], last))
  {
    EndedRest(ps, last);
    var p, rest := ps[0], EndedText(ps[1..], last);
    assert p.line + (p.end + rest) == EndedText(ps, last);
    hide EndedText, AreEnded, SplitLines, FindBreak;
    FindBreakAt(p.line, p.end + rest);
    SplitAtBreak(p.line, p.end, rest);
  }

  lemma SplitAtBreak(line: string, end: string, rest: string)
    requires IsEnded(Ended(line, end)) && (end == "\r" ==> !("\n" <= rest))
    requires FindBreak(line + (end + rest)) == |line|
    ensures SplitLines(line + (end + rest)) == [line] + SplitLines(rest)
  {
    hide FindBreak;
    var s := line + (end + rest);
    assert s[|line|] == end[0];
    assert s[..|line|] == line && s[|line| + |end|..] == rest;
    assert |line| + 1 < |s| ==> s[|line| + 1] == (end + rest)[1];
    if end == "\r" && rest != "" {
      assert rest[0] != '\n' by { assert "\n" <= rest <==> rest[0] == '\n'; }
    }
  }

  /** Any text, taken as lines that end at boundaries and what follows the last one, splits into just these. */
  lemma {:induction false} SplitLinesIs(ps: seq<Ended>, last: string)
    requires AreEnded(ps, last)
    ensures SplitLines(EndedText(ps, last)) == EndedLines(ps, last)
  {
    if ps == [] {
      if last != "" {
        assert FindBreak(last) == |last|;
      }
    } else {
      EndedFirst(ps, last);
      SplitLinesIs(ps[1..], last);
    }
  }

  lemma OneMoreEnded(p: Ended, rest: seq<Ended>, last: string)
    requires IsEnded(p) && AreEnded(rest, last) && (p.end == "\r" ==> !("\n" <= EndedText(rest, last)))
    ensures AreEnded([p] + rest, last) && EndedText([p] + rest, last) == p.line + p.end + EndedText(rest, last)
  {
    var ps := [p] + rest;
    hide IsEnded;
    assert ps[1..] == rest;
    assert forall k :: 0 < k < |ps| ==> ps[k] == rest[k - 1] && ps[k + 1..] == rest[k..];
  }

  /** Every text can be taken so. */
  lemma LinesOf(s: string) returns (ps: seq<Ended>, last: string)
    ensures AreEnded(ps, last) && EndedText(ps, last) == s
    decreases |s|
  {
    var i := FindBreak(s);
    hide FindBreak;
    if i == |s| {
      ps, last := [], s;
    } else {
      var n := if s[i] == '\r' && i + 1 < |s| && s[i + 1] == '\n' then i + 2 else i + 1;
      var p := Ended(s[..i], s[i..n]);
      var rest;
      rest, last := LinesOf(s[n..]);
      ps := [p] + rest;
      assert IsEnded(p) by { BreakIs(s[i]); }
      hide IsBreak, IsEnded, AreEnded;
      OneMoreEnded(p, rest, last);
      assert s[..i] + s[i..n] + s[n..] == s;
    }
  }

  lemma BreakIs(c: char)
    ensures IsBreak(c) <==> c as int in {0x0A, 0x0B, 0x0C, 0x0D, 0x1C, 0x1D, 0x1E, 0x85, 0x2028, 0x2029}
  {
  }

  predicate PlusDigit(line: string, i: int) {
    0 <= i < |line| - 1 && line[i] == '+' && IsDigit(line[i + 1])
  }

  lemma PlusDigitTail(line: string, i: int)
    requires line != "" && i >= 0
    ensures PlusDigit(line[1..], i) <==> PlusDigit(line, i + 1)
  {
  }

  /** The number is that of the digits behind the first plus sign that has any. */
  lemma {:induction false} PlusNumberIff(line: string)
    ensures PlusNumber(line).None? <==> forall i :: !PlusDigit(line, i)
    ensures forall i :: PlusDigit(line, i) && (forall j :: 0 <= j < i ==> !PlusDigit(line, j)) ==>
              var s := line[i + 1..];
              PlusNumber(line) == Some(NatValue(s[..DigitRun(s)]))
  {
    if line != "" {
      assert PlusDigit(line, 0) <==> line[0] == '+' && DigitRun(line[1..]) > 0;
      if !PlusDigit(line, 0) {
        var rest := line[1..];
        PlusNumberIff(rest);
        forall i | 0 <= i
          ensures PlusDigit(rest, i) <==> PlusDigit(line, i + 1)
        {
          PlusDigitTail(line, i);
        }
        assert forall i :: PlusDigit(line, i) ==> i > 0 && PlusDigit(rest, i - 1);
        forall i | PlusDigit(line, i) && forall j :: 0 <= j < i ==> !PlusDigit(line, j)
          ensures var s := line[i + 1..];
                  PlusNumber(line) == Some(NatValue(s[..DigitRun(s)]))
        {
          assert forall j :: 0 <= j < i - 1 ==> !PlusDigit(rest, j);
          assert rest[i..] == line[i + 1..];
        }
      }
    }
  }

  datatype Yielded = Yielded(path: Option<string>, line: nat, text: string)
  datatype ScanState = ScanState(path: Option<string>, newNo: nat, out: seq<Yielded>)

  const SCAN_START := ScanState(None, 0, [])

  function ScanStep(st: ScanState, line: string): ScanState {
    if "+++ b/" <= line then st.(path := Some(line[6..]))
    else if "+++ " <= line then st.(path := None)
    else if "@@" <= line then
      st.(newNo := match PlusNumber(line) case Some(n) => n case None => 0)
    else if "+" <= line && !("+++" <= line) then
      ScanState(st.path, st.newNo + 1, st.out + [Yielded(st.path, st.newNo, line[1..])])
    else if !("-" <= line) then st.(newNo := st.newNo + 1)
    else st
  }

  function ScanRun(st: ScanState, lines: seq<string>): ScanState
    decreases |lines|
  {
    if lines == [] then st else ScanRun(ScanStep(st, lines[0]), lines[1..])
  }

  /** `_added_lines`, given what git writes. */
  method AddedLines(output: string) returns (out: seq<Yielded>)
    ensures out == ScanRun(SCAN_START, SplitLines(Translated(output))).out
  {
    var diff := Translated(output);
    out := [];
    var path: Option<string> := None;
    var newNo: nat := 0;
    var lines := SplitLines(diff);
    for i := 0 to |lines|
      invariant ScanRun(ScanState(path, newNo, out), lines[i..]) == ScanRun(SCAN_START, lines)
    {
      var line := lines[i];
      assert lines[i..][1..] == lines[i + 1..];
      if "+++ b/" <= line {
        path := Some(line[6..]);
      } else if "+++ " <= line {
        path := None;
      } else if "@@" <= line {
        var m := PlusNumber(line);
        newNo := if m.Some? then m.value else 0;
      } else if "+" <= line && !("+++" <= line) {
        out := out + [Yielded(path, newNo, line[1..])];
        newNo := newNo + 1;
      } else if !("-" <= line) {
        newNo := newNo + 1;
      }
    }
  }

  // ---------------------------------------------------------------- both parsers, any input

  lemma {:induction false} AuditRunConcat(st: AuditState, a: seq<string>, b: seq<string>)
    ensures AuditRun(st, a + b) == AuditRun(AuditRun(st, a), b)
    decreases |a|
  {
    if a == [] {
      assert a + b == b;
    } else {
      AuditRunConcat(AuditStep(st, a[0]), a[1..], b);
      assert (a + b)[1..] == a[1..] + b;
    }
  }

  lemma {:induction false} ScanRunConcat(st: ScanState, a: seq<string>, b: seq<string>)
    ensures ScanRun(st, a + b) == ScanRun(ScanRun(st, a), b)
    decreases |a|
  {
    if a == [] {
      assert a + b == b;
    } else {
      ScanRunConcat(ScanStep(st, a[0]), a[1..], b);
      assert (a + b)[1..] == a[1..] + b;
    }
  }

  /** The lines that do not begin with a minus sign. */
  function WithoutMinus(lines: seq<string>): seq<string> {
    if lines == [] then []
    else (if "-" <= lines[0] then [] else [lines[0]]) + WithoutMinus(lines[1..])
  }

  /** A line beginning with `-` changes no parser state, so two inputs that differ only in such
      lines (inserted, removed or rewritten anywhere) are parsed alike by both parsers. */
  lemma {:induction false} MinusLinesAreIgnored(st: AuditState, sc: ScanState, lines: seq<string>)
    ensures AuditRun(st, lines) == AuditRun(st, WithoutMinus(lines))
    ensures ScanRun(sc, lines) == ScanRun(sc, WithoutMinus(lines))
    decreases |lines|
  {
    if lines != [] {
      MinusLinesAreIgnored(AuditStep(st, lines[0]), ScanStep(sc, lines[0]), lines[1..]);
      if "-" <= lines[0] {
        assert lines[0][0] == '-';
        assert WithoutMinus(lines) == WithoutMinus(lines[1..]);
      } else {
        assert WithoutMinus(lines)[1..] == WithoutMinus(lines[1..]);
      }
    }
  }

  /** Lines that a parser can turn into a record. */
  predicate PlusLine(line: string) {
    "+" <= line && !("+++" <= line)
  }

  /** What such lines hold behind their plus sign. */
  function PlusTexts(lines: seq<string>): seq<string> {
    if lines == [] then [] else (if PlusLine(lines[0]) then [lines[0][1..]] else []) + PlusTexts(lines[1..])
  }

  lemma {:induction false} PlusTextsConcat(a: seq<string>, b: seq<string>)
    ensures PlusTexts(a + b) == PlusTexts(a) + PlusTexts(b)
  {
    hide PlusTexts, PlusLine;
    if a == [] {
      NoPlusTexts();
      assert a + b == b;
    } else {
      PlusTextsConcat(a[1..], b);
      assert (a + b)[1..] == a[1..] + b && (a + b)[0] == a[0];
      PlusTextsStep(a);
      PlusTextsStep(a + b);
    }
  }

  lemma PlusTextsStep(lines: seq<string>)
    requires lines != []
    ensures PlusTexts(lines) == (if PlusLine(lines[0]) then [lines[0][1..]] else []) + PlusTexts(lines[1..])
  {
    hide PlusLine;
  }

  lemma NoPlusTexts()
    ensures PlusTexts([]) == []
  {
  }

  function Texts(out: seq<Yielded>): seq<string> {
    if out == [] then [] else Texts(out[..|out| - 1]) + [out[|out| - 1].text]
  }

  /** Whatever the lines and the state, the scanner yields the text of every record-shaped line, in
      order, and no other text. */
  lemma {:induction false} ScannedTexts(sc: ScanState, lines: seq<string>)
    ensures Texts(ScanRun(sc, lines).out) == Texts(sc.out) + PlusTexts(lines)
    decreases |lines|
  {
    if lines != [] {
      ScannedTexts(ScanStep(sc, lines[0]), lines[1..]);
      ScanStepTexts(sc, lines[0]);
      hide ScanStep, PlusLine, Texts;
    }
  }

  lemma ScanStepTexts(sc: ScanState, line: string)
    ensures Texts(ScanStep(sc, line).out) == Texts(sc.out) + if PlusLine(line) then [line[1..]] else []
  {
    if PlusLine(line) {
      assert line[0] == '+';
      assert "+" <= line && !("@@" <= line) && !("+++ " <= line) && !("+++ b/" <= line);
      var more := sc.out + [Yielded(sc.path, sc.newNo, line[1..])];
      assert more[..|more| - 1] == sc.out;
      assert ScanStep(sc, line).out == more;
    }
  }

  lemma {:induction false} TextsAt(out: seq<Yielded>)
    ensures |Texts(out)| == |out| && forall k :: 0 <= k < |out| ==> Texts(out)[k] == out[k].text
  {
    if out != [] {
      TextsAt(out[..|out| - 1]);
    }
  }

  /** The auditor records texts of such lines only, no more often than there are such lines. */
  lemma {:induction false} RecordsAtMostPlusLines(st: AuditState, lines: seq<string>)
    ensures |AuditRun(st, lines).added| <= |st.added| + |PlusTexts(lines)|
    ensures forall a :: a in AuditRun(st, lines).added ==> a in st.added || a.text in PlusTexts(lines)
    decreases |lines|
  {
    if lines != [] {
      RecordsAtMostPlusLines(AuditStep(st, lines[0]), lines[1..]);
    }
  }

  /** Every text the scanner emits is the tail of an input line. */
  lemma {:induction false} ScanTextsAreBreakFree(sc: ScanState, lines: seq<string>)
    requires forall l :: l in lines ==> Lacks(l, IsBreak)
    requires forall y :: y in sc.out ==> Lacks(y.text, IsBreak)
    ensures forall y :: y in ScanRun(sc, lines).out ==> Lacks(y.text, IsBreak)
    decreases |lines|
  {
    if lines != [] {
      assert lines[0] in lines;
      ScanTextsAreBreakFree(ScanStep(sc, lines[0]), lines[1..]);
    }
  }
}
