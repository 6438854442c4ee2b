/** What the two parsers read from a printed diff, for every edit script: the records of each block of
    added lines, under the path and at the number that the parser then holds. */
module DiffReading {
  import opened Text
  import opened DiffParsers
  import opened DiffCut
  import opened DiffRender

  // ---------------------------------------------------------------- the records that come back

  /** An added text that opens with two plus signs is printed like a header line. */
  predicate Plain(text: string) {
    !("++" <= text)
  }

  predicate AllPlain(texts: seq<string>) {
    forall i :: 0 <= i < |texts| ==> Plain(texts[i])
  }

  /** Such a text names no file: the scanner counts its line, the auditor does not. */
  predicate OnlyCounted(text: string) {
    "++" <= text && !("++ " <= text)
  }

  /** Such a text is taken for the name of a file. */
  function PathAfter(path: Option<string>, text: string): Option<string> {
    if "++ b/" <= text then Some(text[5..]) else if "++ " <= text then None else path
  }

  function PathThrough(path: Option<string>, texts: seq<string>): Option<string>
    decreases |texts|
  {
    if texts == [] then path else PathThrough(PathAfter(path, texts[0]), texts[1..])
  }

  /** The records of a block of added lines; `scan` for the scanner's, which counts more lines. */
  function BlockRecords(path: Option<string>, texts: seq<string>, line: nat, scan: bool): seq<Yielded>
    decreases |texts|
  {
    if texts == [] then []
    else
      var t := texts[0];
      if Plain(t) then [Yielded(path, line, t)] + BlockRecords(path, texts[1..], line + 1, scan)
      else BlockRecords(PathAfter(path, t), texts[1..], line + if scan && OnlyCounted(t) then 1 else 0, scan)
  }

  /** What is read between a hunk's ranges and its added lines: pieces cut off the section heading, the
      removed lines with theirs, and the marker. */
  function Between(e: Edit, at: char -> bool): seq<string>
    requires e.Change?
  {
    Cut(e.section, at)[1..]
    + (CutLines(Prefixed('-', e.removed), at) + Marker(e.oldNoEol && e.removed != []))
  }

  /** Where the parsers stand after these lines, from a header that gives the position `pos`, and what they
      have made of them. */
  function AuditBetween(file: Option<string>, e: Edit, pos: nat, at: char -> bool): AuditState
    requires e.Change?
  {
    AuditRun(AuditState(file, Start(pos, |e.added|), []), Between(e, at))
  }

  function ScanBetween(path: Option<string>, e: Edit, pos: nat, at: char -> bool): ScanState
    requires e.Change?
  {
    ScanRun(ScanState(path, Start(pos, |e.added|), []), Between(e, at))
  }

  /** What the auditor records of a script, under `file` at first. */
  function FileAudit(file: Option<string>, edits: seq<Edit>, pos: nat, at: char -> bool): seq<Added>
    decreases |edits|
  {
    if edits == [] then []
    else match edits[0]
      case Keep(_) => FileAudit(file, edits[1..], pos + 1, at)
      case Change(_, _, added, _, _) =>
        var a := AuditBetween(file, edits[0], pos, at);
        a.added
        + (Attributed(BlockRecords(a.file, added, a.newLine, false))
        + FileAudit(PathThrough(a.file, added), edits[1..], pos + |added|, at))
  }

  /** What the scanner yields. */
  function FileScan(path: Option<string>, edits: seq<Edit>, pos: nat, at: char -> bool): seq<Yielded>
    decreases |edits|
  {
    if edits == [] then []
    else match edits[0]
      case Keep(_) => FileScan(path, edits[1..], pos + 1, at)
      case Change(_, _, added, _, _) =>
        var s := ScanBetween(path, edits[0], pos, at);
        s.out
        + (BlockRecords(s.path, added, s.newNo, true)
        + FileScan(PathThrough(s.path, added), edits[1..], pos + |added|, at))
  }

  function DiffAudit(files: seq<FileDiff>, at: char -> bool): seq<Added> {
    if files == [] then [] else FileAudit(ReadPath(files[0]), files[0].edits, 0, at) + DiffAudit(files[1..], at)
  }

  function DiffScan(files: seq<FileDiff>, at: char -> bool): seq<Yielded> {
    if files == [] then [] else FileScan(ReadPath(files[0]), files[0].edits, 0, at) + DiffScan(files[1..], at)
  }

  // ---------------------------------------------------------------- the same, when nothing strays

  /** How many of the lines the scanner takes for lines of the new file. */
  function Strays(lines: seq<string>): nat {
    if lines == [] then 0 else (if "-" <= lines[0] then 0 else 1) + Strays(lines[1..])
  }

  function FileReads(path: Option<string>, edits: seq<Edit>, pos: nat, at: char -> bool, scan: bool): seq<Yielded>
    decreases |edits|
  {
    if edits == [] then []
    else match edits[0]
      case Keep(_) => FileReads(path, edits[1..], pos + 1, at, scan)
      case Change(_, _, added, _, _) =>
        BlockRecords(path, added, pos + 1 + if scan then Strays(Between(edits[0], at)) else 0, scan)
        + FileReads(PathThrough(path, added), edits[1..], pos + |added|, at, scan)
  }

  /** The path a header leaves current: what stands behind `b/`, a tab included. */
  function ReadPath(f: FileDiff): Option<string> {
    if PlainlyNamed(f) then Some(Shown(f.path.value)) else None
  }

  function Reads(files: seq<FileDiff>, at: char -> bool, scan: bool): seq<Yielded> {
    if files == [] then []
    else FileReads(ReadPath(files[0]), files[0].edits, 0, at, scan) + Reads(files[1..], at, scan)
  }

  /** The auditor's form of the records that have a path. */
  function Attributed(recs: seq<Yielded>): seq<Added> {
    if recs == [] then []
    else (if HasPath(recs[0].path) then [Added(recs[0].path.value, recs[0].line, recs[0].text)] else [])
         + Attributed(recs[1..])
  }

  predicate HasPath(path: Option<string>) {
    path.Some? && path.value != ""
  }

  // ---------------------------------------------------------------- the surroundings of added lines

  /** A line that can be no record, hunk header or file header. */
  predicate Inert(line: string) {
    !("+" <= line) && !("@@" <= line) && !("diff --git" <= line)
  }

  /** Whatever is cut off a removed line or a section heading is inert. */
  predicate QuietEdit(e: Edit, at: char -> bool) {
    e.Change? ==> forall l :: l in Between(e, at) ==> Inert(l)
  }

  predicate QuietEdits(edits: seq<Edit>, at: char -> bool) {
    forall i :: 0 <= i < |edits| ==> QuietEdit(edits[i], at)
  }

  /** No boundary in a header line; git quotes names that hold one. */
  predicate CleanHead(f: FileDiff, at: char -> bool) {
    Lacks(f.title, at) && Lacks(f.oldName, at) && Lacks(NewName(f), at) && AllLack(f.meta, at)
  }

  predicate CleanHeads(files: seq<FileDiff>, at: char -> bool) {
    forall i :: 0 <= i < |files| ==> CleanHead(files[i], at)
  }

  predicate Quiet(f: FileDiff, at: char -> bool) {
    Valid(f) && CleanHead(f, at) && QuietEdits(f.edits, at)
  }

  predicate AllQuiet(files: seq<FileDiff>, at: char -> bool) {
    forall i :: 0 <= i < |files| ==> Quiet(files[i], at)
  }

  // ---------------------------------------------------------------- runs

  lemma RunCons(st: AuditState, sc: ScanState, line: string, more: seq<string>)
    ensures AuditRun(st, [line] + more) == AuditRun(AuditStep(st, line), more)
    ensures ScanRun(sc, [line] + more) == ScanRun(ScanStep(sc, line), more)
  {
    hide AuditStep, ScanStep;
    assert ([line] + more)[1..] == more;
  }

  lemma RunNone(st: AuditState, sc: ScanState)
    ensures AuditRun(st, []) == st
    ensures ScanRun(sc, []) == sc && Attributed([]) == []
  {
  }

  lemma RunConcat(st: AuditState, sc: ScanState, a: seq<string>, b: seq<string>)
    ensures AuditRun(st, a + b) == AuditRun(AuditRun(st, a), b)
    ensures ScanRun(sc, a + b) == ScanRun(ScanRun(sc, a), b)
  {
    hide *;
    AuditRunConcat(st, a, b);
    ScanRunConcat(sc, a, b);
  }

  lemma InertStep(st: AuditState, sc: ScanState, line: string)
    requires Inert(line)
    ensures AuditStep(st, line) == st
    ensures ScanStep(sc, line) == sc.(newNo := sc.newNo + if "-" <= line then 0 else 1)
  {
    assert "+++ b/" <= line ==> "+" <= line;
    assert "+++ " <= line ==> "+" <= line;
    HunkOpens(line);
    hide HunkStart, PlusNumber;
  }

  lemma {:induction false} InertLines(st: AuditState, sc: ScanState, lines: seq<string>)
    requires forall l :: l in lines ==> Inert(l)
    ensures AuditRun(st, lines) == st
    ensures ScanRun(sc, lines) == sc.(newNo := sc.newNo + Strays(lines))
    decreases |lines|
  {
    hide AuditStep, ScanStep, Inert;
    if lines != [] {
      InertStep(st, sc, lines[0]);
      InertLines(AuditStep(st, lines[0]), ScanStep(sc, lines[0]), lines[1..]);
    }
  }

  lemma {:induction false} AttributedConcat(a: seq<Yielded>, b: seq<Yielded>)
    ensures Attributed(a + b) == Attributed(a) + Attributed(b)
  {
    hide Attributed;
    if a == [] {
      RunNone(AUDIT_START, SCAN_START);
      assert a + b == b;
    } else {
      AttributedConcat(a[1..], b);
      AttributedCons(a[0], a[1..]);
      AttributedCons(a[0], a[1..] + b);
      assert a == [a[0]] + a[1..];
      assert a + b == [a[0]] + (a[1..] + b);
    }
  }

  lemma AttributedCons(r: Yielded, rest: seq<Yielded>)
    ensures Attributed([r] + rest) == Attributed([r]) + Attributed(rest)
    ensures Attributed([r]) == if HasPath(r.path) then [Added(r.path.value, r.line, r.text)] else []
  {
    hide HasPath;
    assert ([r] + rest)[1..] == rest;
    assert [r][1..] == [];
  }

  // ---------------------------------------------------------------- added lines

  lemma PlusLineSteps(st: AuditState, sc: ScanState, text: string)
    ensures AuditStep(st, ['+'] + text) ==
            if Plain(text)
            then AuditState(st.file, st.newLine + 1, st.added + Attributed([Yielded(st.file, st.newLine, text)]))
            else st.(file := PathAfter(st.file, text))
    ensures ScanStep(sc, ['+'] + text) ==
            if Plain(text) then ScanState(sc.path, sc.newNo + 1, sc.out + [Yielded(sc.path, sc.newNo, text)])
            else ScanState(PathAfter(sc.path, text), sc.newNo + if OnlyCounted(text) then 1 else 0, sc.out)
  {
    var line := ['+'] + text;
    PlusLineOpens(text);
    AttributedCons(Yielded(st.file, st.newLine, text), []);
    assert [Yielded(st.file, st.newLine, text)] + [] == [Yielded(st.file, st.newLine, text)];
    hide Attributed, PlusNumber, HasPath, HunkStart;
  }

  /** How an added line opens. */
  lemma PlusLineOpens(text: string)
    ensures var line := ['+'] + text;
            && "+" <= line && line[1..] == text && HunkStart(line).None?
            && !("diff --git" <= line) && !("@@" <= line) && !("-" <= line)
            && ("+++" <= line <==> !Plain(text)) && ("+++ " <= line <==> "++ " <= text)
            && ("+++ b/" <= line <==> "++ b/" <= text) && ("++ b/" <= text ==> line[6..] == text[5..])
            && ("++ b/" <= text ==> "++ " <= text) && ("++ " <= text ==> !Plain(text))
  {
    var line := ['+'] + text;
    assert line[0] == '+';
    HunkOpens(line);
    hide HunkStart;
    assert "++ b/" <= text ==> text[..3] == "++ b/"[..3];
    assert "++ " <= text ==> text[..2] == "++ "[..2];
    MarkPrefix('+', "++", text);
    MarkPrefix('+', "++ ", text);
    MarkPrefix('+', "++ b/", text);
    assert ['+'] + "++" == "+++" && ['+'] + "++ " == "+++ " && ['+'] + "++ b/" == "+++ b/";
  }

  lemma MarkPrefix(mark: char, p: string, s: string)
    ensures [mark] + p <= [mark] + s <==> p <= s
  {
    var q, t := [mark] + p, [mark] + s;
    assert q[1..] == p && t[1..] == s;
    if q <= t {
      assert p == q[1..] == t[..|q|][1..] == s[..|p|];
    }
    if p <= s {
      assert q == [mark] + s[..|p|] == t[..|q|];
    }
  }

  lemma BlockStep(path: Option<string>, text: string, more: seq<string>, line: nat, scan: bool)
    ensures BlockRecords(path, [text] + more, line, scan) ==
            if Plain(text) then [Yielded(path, line, text)] + BlockRecords(path, more, line + 1, scan)
            else BlockRecords(PathAfter(path, text), more, line + if scan && OnlyCounted(text) then 1 else 0, scan)
    ensures BlockRecords(path, [], line, scan) == []
    ensures PathThrough(path, [text] + more) == PathThrough(PathAfter(path, text), more)
    ensures PathThrough(path, []) == path
    ensures Plain(text) ==> PathAfter(path, text) == path
  {
    assert ([text] + more)[1..] == more;
    assert "++ " <= text || "++ b/" <= text ==> "++" <= text;
  }

  /** A block of added lines, read by the auditor from any state. */
  lemma {:induction false} AddedRunAudit(st: AuditState, texts: seq<string>)
    ensures var r := AuditRun(st, Prefixed('+', texts));
            && r.file == PathThrough(st.file, texts)
            && r.added == st.added + Attributed(BlockRecords(st.file, texts, st.newLine, false))
    decreases |texts|
  {
    hide AuditRun, AuditStep, ScanRun, ScanStep, Plain, Attributed, PathAfter, PathThrough, OnlyCounted;
    hide BlockRecords;
    RunNone(st, SCAN_START);
    if texts == [] {
      BlockStep(st.file, "", [], st.newLine, false);
    } else {
      var t, more := texts[0], texts[1..];
      assert texts == [t] + more;
      PlusLineSteps(st, SCAN_START, t);
      RunCons(st, SCAN_START, ['+'] + t, Prefixed('+', more));
      AddedRunAudit(AuditStep(st, ['+'] + t), more);
      BlockStep(st.file, t, more, st.newLine, false);
      AttributedCons(Yielded(st.file, st.newLine, t), BlockRecords(st.file, more, st.newLine + 1, false));
    }
  }

  /** The same block, read by the scanner. */
  lemma {:induction false} AddedRunScan(sc: ScanState, texts: seq<string>)
    ensures var r := ScanRun(sc, Prefixed('+', texts));
            && r.path == PathThrough(sc.path, texts)
            && r.out == sc.out + BlockRecords(sc.path, texts, sc.newNo, true)
    decreases |texts|
  {
    hide AuditRun, AuditStep, ScanRun, ScanStep, Plain, Attributed, PathAfter, PathThrough, OnlyCounted;
    hide BlockRecords;
    RunNone(AUDIT_START, sc);
    if texts == [] {
      BlockStep(sc.path, "", [], sc.newNo, true);
    } else {
      var t, more := texts[0], texts[1..];
      assert texts == [t] + more;
      PlusLineSteps(AUDIT_START, sc, t);
      RunCons(AUDIT_START, sc, ['+'] + t, Prefixed('+', more));
      AddedRunScan(ScanStep(sc, ['+'] + t), more);
      BlockStep(sc.path, t, more, sc.newNo, true);
    }
  }

  // ---------------------------------------------------------------- hunks

  predicate Printable(s: string) {
    forall i :: 0 <= i < |s| ==> ' ' <= s[i] <= '~'
  }

  lemma PrintableLacks(s: string, at: char -> bool)
    requires Boundary(at) && Printable(s)
    ensures Lacks(s, at)
  {
  }

  lemma PrintableConcat(a: string, b: string)
    requires Printable(a) && Printable(b)
    ensures Printable(a + b)
  {
  }

  lemma NumbersPrintable(n: nat)
    ensures Printable(Decimal(n)) && Printable(Count(n))
  {
    DecimalRoundTrip(n);
    PrintableConcat(",", Decimal(n));
  }

  lemma RangePrintable(oldPos: nat, newPos: nat, e: Edit)
    requires e.Change?
    ensures Printable(Range(oldPos, newPos, e))
  {
    var a, c := Decimal(Start(oldPos, |e.removed|)), Decimal(Start(newPos, |e.added|));
    var b, d := Count(|e.removed|), Count(|e.added|);
    NumbersPrintable(Start(oldPos, |e.removed|));
    NumbersPrintable(Start(newPos, |e.added|));
    NumbersPrintable(|e.removed|);
    NumbersPrintable(|e.added|);
    assert Printable("@@ -") && Printable(" +") && Printable(" @@");
    hide Printable, Decimal, Count;
    PrintableConcat("@@ -", a);
    PrintableConcat("@@ -" + a, b);
    PrintableConcat("@@ -" + a + b, " +");
    PrintableConcat("@@ -" + a + b + " +", c);
    PrintableConcat("@@ -" + a + b + " +" + c, d);
    PrintableConcat("@@ -" + a + b + " +" + c + d, " @@");
  }

  lemma MarkerLacks(present: bool, at: char -> bool)
    requires Boundary(at)
    ensures CutLines(Marker(present), at) == Marker(present)
  {
    var text := "\\ No newline at end of file";
    assert Printable(text);
    PrintableLacks(text, at);
    CutLinesLack(Marker(present), at);
  }

  lemma {:induction false} PrefixedLack(mark: char, texts: seq<string>, at: char -> bool)
    requires AllLack(texts, at) && !at(mark)
    ensures CutLines(Prefixed(mark, texts), at) == Prefixed(mark, texts)
  {
    if texts != [] {
      var line := [mark] + texts[0];
      assert Lacks(line, at) by { assert Lacks(texts[0], at); }
      hide Cut, Lacks;
      PrefixedLack(mark, texts[1..], at);
      CutLacks(line, at);
      assert Prefixed(mark, texts)[1..] == Prefixed(mark, texts[1..]);
    }
  }

  /** A printed hunk as it is read: header piece, what lies between, the added lines, a marker. */
  lemma HunkCut(oldPos: nat, newPos: nat, e: Edit, at: char -> bool)
    requires Boundary(at) && e.Change?
    ensures CutLines(Hunk(oldPos, newPos, e), at) ==
            [Range(oldPos, newPos, e) + Cut(e.section, at)[0]]
            + (Between(e, at) + (CutLines(Prefixed('+', e.added), at) + Marker(e.newNoEol && e.added != [])))
  {
    var range, tail := Range(oldPos, newPos, e), e.section;
    var old1, new1 := e.oldNoEol && e.removed != [], e.newNoEol && e.added != [];
    var minus, plus := Prefixed('-', e.removed), Prefixed('+', e.added);
    RangePrintable(oldPos, newPos, e);
    PrintableLacks(range, at);
    MarkerLacks(old1, at);
    MarkerLacks(new1, at);
    CutPrefix(range, tail, at);
    assert Hunk(oldPos, newPos, e) == [range + tail] + (minus + (Marker(old1) + (plus + Marker(new1))));
    hide *;
    CutLinesOne(range + tail, at);
    CutLinesConcat([range + tail], minus + (Marker(old1) + (plus + Marker(new1))), at);
    CutLinesConcat(minus, Marker(old1) + (plus + Marker(new1)), at);
    CutLinesConcat(Marker(old1), plus + Marker(new1), at);
    CutLinesConcat(plus, Marker(new1), at);
    BetweenIs(e, at);
    Regrouped([range + Cut(tail, at)[0]], Cut(tail, at)[1..], CutLines(minus, at), Marker(old1),
              CutLines(plus, at) + Marker(new1));
  }

  lemma BetweenIs(e: Edit, at: char -> bool)
    requires e.Change?
    ensures Between(e, at) ==
            Cut(e.section, at)[1..]
            + (CutLines(Prefixed('-', e.removed), at) + Marker(e.oldNoEol && e.removed != []))
  {
  }

  lemma Regrouped(a: seq<string>, b: seq<string>, c: seq<string>, d: seq<string>, e: seq<string>)
    ensures (a + b) + (c + (d + e)) == a + ((b + (c + d)) + e)
  {
  }

  lemma HeaderSteps(st: AuditState, sc: ScanState, oldPos: nat, newPos: nat, e: Edit, section: string)
    requires e.Change?
    ensures AuditStep(st, Range(oldPos, newPos, e) + section) == st.(newLine := Start(newPos, |e.added|))
    ensures ScanStep(sc, Range(oldPos, newPos, e) + section) == sc.(newNo := Start(newPos, |e.added|))
  {
    hide *;
    var line := Range(oldPos, newPos, e) + section;
    HeaderStartsHunk(oldPos, newPos, e, section);
    HeaderNumber(oldPos, newPos, e, section);
    HunkOpens(line);
    NumberedSteps(st, sc, line, Start(newPos, |e.added|));
  }

  lemma NumberedSteps(st: AuditState, sc: ScanState, line: string, n: nat)
    requires "@@" <= line && HunkStart(line) == Some(n) && PlusNumber(line) == Some(n)
    ensures AuditStep(st, line) == st.(newLine := n)
    ensures ScanStep(sc, line) == sc.(newNo := n)
  {
    hide HunkStart, PlusNumber;
    assert line[0] == '@';
  }

  lemma MarkerRun(st: AuditState, sc: ScanState, present: bool)
    ensures AuditRun(st, Marker(present)) == st
    ensures var r := ScanRun(sc, Marker(present)); r.path == sc.path && r.out == sc.out
  {
    if present {
      assert Marker(true)[0][0] == '\\';
    }
    InertLines(st, sc, Marker(present));
  }

  lemma NoBlock(path: Option<string>, line: nat, scan: bool)
    ensures BlockRecords(path, [], line, scan) == []
  {
  }

  lemma PlusIsNoBoundary(at: char -> bool)
    requires Boundary(at)
    ensures !at('+') && !at('-')
  {
  }

  lemma {:induction false} AuditFrame(st: AuditState, lines: seq<string>)
    ensures var r := AuditRun(AuditState(st.file, st.newLine, []), lines);
            AuditRun(st, lines) == AuditState(r.file, r.newLine, st.added + r.added)
    decreases |lines|
  {
    hide AuditStep, HunkStart;
    RunNone(st, SCAN_START);
    RunNone(AuditState(st.file, st.newLine, []), SCAN_START);
    if lines != [] {
      var bare := AuditStep(AuditState(st.file, st.newLine, []), lines[0]);
      AuditStepFrame(st, lines[0]);
      AuditFrame(AuditStep(st, lines[0]), lines[1..]);
      AuditFrame(bare, lines[1..]);
    }
  }

  lemma AuditStepFrame(st: AuditState, line: string)
    ensures var r := AuditStep(AuditState(st.file, st.newLine, []), line);
            AuditStep(st, line) == AuditState(r.file, r.newLine, st.added + r.added)
  {
    hide HunkStart;
  }

  lemma {:induction false} ScanFrame(sc: ScanState, lines: seq<string>)
    ensures var r := ScanRun(ScanState(sc.path, sc.newNo, []), lines);
            ScanRun(sc, lines) == ScanState(r.path, r.newNo, sc.out + r.out)
    decreases |lines|
  {
    hide ScanStep, PlusNumber;
    RunNone(AUDIT_START, sc);
    RunNone(AUDIT_START, ScanState(sc.path, sc.newNo, []));
    if lines != [] {
      var bare := ScanStep(ScanState(sc.path, sc.newNo, []), lines[0]);
      ScanStepFrame(sc, lines[0]);
      ScanFrame(ScanStep(sc, lines[0]), lines[1..]);
      ScanFrame(bare, lines[1..]);
    }
  }

  lemma ScanStepFrame(sc: ScanState, line: string)
    ensures var r := ScanStep(ScanState(sc.path, sc.newNo, []), line);
            ScanStep(sc, line) == ScanState(r.path, r.newNo, sc.out + r.out)
  {
    hide PlusNumber;
  }

  /** The lines after a header. */
  lemma BodyAudit(st: AuditState, mid: seq<string>, added: seq<string>, marked: bool)
    ensures var b := AuditRun(AuditState(st.file, st.newLine, []), mid);
            var a := AuditRun(st, mid + (Prefixed('+', added) + Marker(marked)));
            && a.file == PathThrough(b.file, added)
            && a.added == st.added + (b.added + Attributed(BlockRecords(b.file, added, b.newLine, false)))
  {
    hide *;
    var plus, st2 := Prefixed('+', added), AuditRun(st, mid);
    AuditFrame(st, mid);
    AddedRunAudit(st2, added);
    MarkerRun(AuditRun(st2, plus), SCAN_START, marked);
    AuditRunConcat(st, mid, plus + Marker(marked));
    AuditRunConcat(st2, plus, Marker(marked));
  }

  lemma BodyScan(sc: ScanState, mid: seq<string>, added: seq<string>, marked: bool)
    ensures var t := ScanRun(ScanState(sc.path, sc.newNo, []), mid);
            var s := ScanRun(sc, mid + (Prefixed('+', added) + Marker(marked)));
            && s.path == PathThrough(t.path, added)
            && s.out == sc.out + (t.out + BlockRecords(t.path, added, t.newNo, true))
  {
    hide *;
    var plus, sc2 := Prefixed('+', added), ScanRun(sc, mid);
    ScanFrame(sc, mid);
    AddedRunScan(sc2, added);
    MarkerRun(AUDIT_START, ScanRun(sc2, plus), marked);
    ScanRunConcat(sc, mid, plus + Marker(marked));
    ScanRunConcat(sc2, plus, Marker(marked));
  }

  /** One hunk, from any state: what lies between leads to a path and a number, and from there its added
      lines are read. */
  lemma HunkRead(st: AuditState, sc: ScanState, oldPos: nat, newPos: nat, e: Edit, at: char -> bool)
    requires Boundary(at) && e.Change? && AllLack(e.added, at)
    ensures var lines := CutLines(Hunk(oldPos, newPos, e), at);
            var a, s := AuditRun(st, lines), ScanRun(sc, lines);
            var b, t := AuditBetween(st.file, e, newPos, at), ScanBetween(sc.path, e, newPos, at);
            && a.file == PathThrough(b.file, e.added) && s.path == PathThrough(t.path, e.added)
            && a.added == st.added + (b.added + Attributed(BlockRecords(b.file, e.added, b.newLine, false)))
            && s.out == sc.out + (t.out + BlockRecords(t.path, e.added, t.newNo, true))
  {
    BetweenRuns(st.file, e, newPos, at);
    BetweenRuns(sc.path, e, newPos, at);
    hide *;
    var first, marked := Range(oldPos, newPos, e) + Cut(e.section, at)[0], e.newNoEol && e.added != [];
    var st1, sc1 := st.(newLine := Start(newPos, |e.added|)), sc.(newNo := Start(newPos, |e.added|));
    HunkCut(oldPos, newPos, e, at);
    PlusIsNoBoundary(at);
    PrefixedLack('+', e.added, at);
    HeaderSteps(st, sc, oldPos, newPos, e, Cut(e.section, at)[0]);
    RunCons(st, sc, first, Between(e, at) + (Prefixed('+', e.added) + Marker(marked)));
    BodyAudit(st1, Between(e, at), e.added, marked);
    BodyScan(sc1, Between(e, at), e.added, marked);
  }

  lemma BetweenRuns(path: Option<string>, e: Edit, pos: nat, at: char -> bool)
    requires e.Change?
    ensures AuditBetween(path, e, pos, at) == AuditRun(AuditState(path, Start(pos, |e.added|), []), Between(e, at))
    ensures ScanBetween(path, e, pos, at) == ScanRun(ScanState(path, Start(pos, |e.added|), []), Between(e, at))
  {
  }

  /** How what is read of a script begins. */
  lemma ReadsStep(path: Option<string>, edits: seq<Edit>, pos: nat, at: char -> bool, scan: bool)
    ensures FileReads(path, [], pos, at, scan) == []
    ensures edits != [] ==>
              FileReads(path, edits, pos, at, scan) ==
              match edits[0]
              case Keep(_) => FileReads(path, edits[1..], pos + 1, at, scan)
              case Change(_, _, added, _, _) =>
                BlockRecords(path, added, pos + 1 + if scan then Strays(Between(edits[0], at)) else 0, scan)
                + FileReads(PathThrough(path, added), edits[1..], pos + |added|, at, scan)
  {
    hide BlockRecords, Strays, Between, PathThrough;
  }

  lemma HunksStep(oldPos: nat, newPos: nat, edits: seq<Edit>, at: char -> bool)
    ensures CutLines(Hunks(oldPos, newPos, []), at) == []
    ensures edits != [] ==>
              CutLines(Hunks(oldPos, newPos, edits), at) ==
              match edits[0]
              case Keep(_) => CutLines(Hunks(oldPos + 1, newPos + 1, edits[1..]), at)
              case Change(removed, _, added, _, _) =>
                CutLines(Hunk(oldPos, newPos, edits[0]), at)
                + CutLines(Hunks(oldPos + |removed|, newPos + |added|, edits[1..]), at)
  {
    NothingCut(at);
    hide Hunk, CutLines;
    if edits != [] {
      match edits[0] {
        case Keep(_) =>
        case Change(removed, _, added, _, _) =>
          CutLinesConcat(Hunk(oldPos, newPos, edits[0]), Hunks(oldPos + |removed|, newPos + |added|, edits[1..]), at);
      }
    }
  }

  /** How the general readings of a script begin. */
  lemma ScriptStep(path: Option<string>, edits: seq<Edit>, pos: nat, at: char -> bool)
    ensures FileAudit(path, [], pos, at) == [] && FileScan(path, [], pos, at) == []
    ensures edits != [] ==>
              FileAudit(path, edits, pos, at) ==
              match edits[0]
              case Keep(_) => FileAudit(path, edits[1..], pos + 1, at)
              case Change(_, _, added, _, _) =>
                var a := AuditBetween(path, edits[0], pos, at);
                a.added
                + (Attributed(BlockRecords(a.file, added, a.newLine, false))
                + FileAudit(PathThrough(a.file, added), edits[1..], pos + |added|, at))
    ensures edits != [] ==>
              FileScan(path, edits, pos, at) ==
              match edits[0]
              case Keep(_) => FileScan(path, edits[1..], pos + 1, at)
              case Change(_, _, added, _, _) =>
                var s := ScanBetween(path, edits[0], pos, at);
                s.out
                + (BlockRecords(s.path, added, s.newNo, true)
                + FileScan(PathThrough(s.path, added), edits[1..], pos + |added|, at))
  {
    hide BlockRecords, PathThrough, Attributed, AuditBetween, ScanBetween;
  }

  lemma AddedStep(edits: seq<Edit>)
    ensures AddedOf([]) == []
    ensures edits != [] ==>
              AddedOf(edits) == (match edits[0] case Keep(_) => [] case Change(_, _, added, _, _) => added)
                                + AddedOf(edits[1..])
  {
  }

  lemma {:induction false} HunksRead(st: AuditState, sc: ScanState, oldPos: nat, newPos: nat, edits: seq<Edit>,
                                     at: char -> bool)
    requires Boundary(at) && AllLack(AddedOf(edits), at)
    ensures var lines := CutLines(Hunks(oldPos, newPos, edits), at);
            && AuditRun(st, lines).added == st.added + FileAudit(st.file, edits, newPos, at)
            && ScanRun(sc, lines).out == sc.out + FileScan(sc.path, edits, newPos, at)
    decreases |edits|
  {
    hide *;
    HunksStep(oldPos, newPos, edits, at);
    ScriptStep(st.file, edits, newPos, at);
    ScriptStep(sc.path, edits, newPos, at);
    AddedStep(edits);
    if edits == [] {
      RunNone(st, sc);
    } else {
      var e, rest := edits[0], edits[1..];
      match e {
        case Keep(_) =>
          assert AddedOf(edits) == AddedOf(rest);
          HunksRead(st, sc, oldPos + 1, newPos + 1, rest, at);
        case Change(removed, _, added, _, _) =>
          AllLackConcat(added, AddedOf(rest), at);
          HunkRead(st, sc, oldPos, newPos, e, at);
          var first := CutLines(Hunk(oldPos, newPos, e), at);
          var more := CutLines(Hunks(oldPos + |removed|, newPos + |added|, rest), at);
          HunksRead(AuditRun(st, first), ScanRun(sc, first), oldPos + |removed|, newPos + |added|, rest, at);
          RunConcat(st, sc, first, more);
      }
    }
  }

  // ---------------------------------------------------------------- quiet scripts

  lemma QuietRest(edits: seq<Edit>, at: char -> bool)
    requires edits != [] && QuietEdits(edits, at)
    ensures QuietEdit(edits[0], at) && QuietEdits(edits[1..], at)
  {
    hide QuietEdit;
    assert forall i :: 0 <= i < |edits[1..]| ==> edits[1..][i] == edits[i + 1];
  }

  /** Inert lines leave the path, move the scanner's number on, and are made nothing of. */
  lemma QuietBetween(path: Option<string>, e: Edit, pos: nat, at: char -> bool)
    requires e.Change? && QuietEdit(e, at)
    ensures AuditBetween(path, e, pos, at) == AuditState(path, Start(pos, |e.added|), [])
    ensures ScanBetween(path, e, pos, at) == ScanState(path, Start(pos, |e.added|) + Strays(Between(e, at)), [])
  {
    InertLines(AuditState(path, Start(pos, |e.added|), []), ScanState(path, Start(pos, |e.added|), []), Between(e, at));
  }

  lemma QuietBlock(path: Option<string>, texts: seq<string>, pos: nat, strays: nat)
    ensures BlockRecords(path, texts, Start(pos, |texts|), false) == BlockRecords(path, texts, pos + 1, false)
    ensures BlockRecords(path, texts, Start(pos, |texts|) + strays, true)
            == BlockRecords(path, texts, pos + 1 + strays, true)
  {
    if texts == [] {
      NoBlock(path, pos, false);
      NoBlock(path, pos + 1, false);
      NoBlock(path, pos + strays, true);
      NoBlock(path, pos + 1 + strays, true);
    }
    hide BlockRecords;
  }

  lemma QuietChange(path: Option<string>, edits: seq<Edit>, pos: nat, at: char -> bool)
    requires edits != [] && edits[0].Change? && QuietEdit(edits[0], at)
    ensures var added := edits[0].added;
            && FileAudit(path, edits, pos, at) ==
               Attributed(BlockRecords(path, added, pos + 1, false))
               + FileAudit(PathThrough(path, added), edits[1..], pos + |added|, at)
            && FileScan(path, edits, pos, at) ==
               BlockRecords(path, added, pos + 1 + Strays(Between(edits[0], at)), true)
               + FileScan(PathThrough(path, added), edits[1..], pos + |added|, at)
  {
    hide *;
    var e := edits[0];
    QuietAudit(path, edits, pos, at);
    QuietScan(path, edits, pos, at);
    QuietBlock(path, e.added, pos, Strays(Between(e, at)));
  }

  lemma QuietAudit(path: Option<string>, edits: seq<Edit>, pos: nat, at: char -> bool)
    requires edits != [] && edits[0].Change? && QuietEdit(edits[0], at)
    ensures var added := edits[0].added;
            FileAudit(path, edits, pos, at) ==
            Attributed(BlockRecords(path, added, Start(pos, |added|), false))
            + FileAudit(PathThrough(path, added), edits[1..], pos + |added|, at)
  {
    ChangeStep(path, edits, pos, at);
    QuietBetween(path, edits[0], pos, at);
    hide *;
    var added, a := edits[0].added, AuditBetween(path, edits[0], pos, at);
    NoFront(a.added, Attributed(BlockRecords(a.file, added, a.newLine, false))
                     + FileAudit(PathThrough(a.file, added), edits[1..], pos + |added|, at));
  }

  lemma QuietScan(path: Option<string>, edits: seq<Edit>, pos: nat, at: char -> bool)
    requires edits != [] && edits[0].Change? && QuietEdit(edits[0], at)
    ensures var added := edits[0].added;
            FileScan(path, edits, pos, at) ==
            BlockRecords(path, added, Start(pos, |added|) + Strays(Between(edits[0], at)), true)
            + FileScan(PathThrough(path, added), edits[1..], pos + |added|, at)
  {
    var number := Start(pos, |edits[0].added|) + Strays(Between(edits[0], at));
    QuietBetween(path, edits[0], pos, at);
    hide *;
    ScanOnly(path, edits, pos, at, path, number);
  }

  /** A hunk between whose ranges and added lines nothing is yielded. */
  lemma ScanOnly(path: Option<string>, edits: seq<Edit>, pos: nat, at: char -> bool, p: Option<string>, n: nat)
    requires edits != [] && edits[0].Change? && ScanBetween(path, edits[0], pos, at) == ScanState(p, n, [])
    ensures var added := edits[0].added;
            FileScan(path, edits, pos, at) ==
            BlockRecords(p, added, n, true) + FileScan(PathThrough(p, added), edits[1..], pos + |added|, at)
  {
    ChangeStep(path, edits, pos, at);
    hide *;
    NoFront([], BlockRecords(p, edits[0].added, n, true)
                + FileScan(PathThrough(p, edits[0].added), edits[1..], pos + |edits[0].added|, at));
  }

  lemma NoFront<T>(a: seq<T>, b: seq<T>)
    requires a == []
    ensures a + b == b
  {
  }

  lemma ChangeStep(path: Option<string>, edits: seq<Edit>, pos: nat, at: char -> bool)
    requires edits != [] && edits[0].Change?
    ensures var added, a := edits[0].added, AuditBetween(path, edits[0], pos, at);
            FileAudit(path, edits, pos, at) ==
            a.added + (Attributed(BlockRecords(a.file, added, a.newLine, false))
            + FileAudit(PathThrough(a.file, added), edits[1..], pos + |added|, at))
    ensures var added, s := edits[0].added, ScanBetween(path, edits[0], pos, at);
            FileScan(path, edits, pos, at) ==
            s.out + (BlockRecords(s.path, added, s.newNo, true)
            + FileScan(PathThrough(s.path, added), edits[1..], pos + |added|, at))
  {
    ScriptStep(path, edits, pos, at);
    hide *;
  }

  /** A quiet script is read at its positions in the new file, by the scanner moved on by what lies between. */
  lemma {:induction false} QuietScript(path: Option<string>, edits: seq<Edit>, pos: nat, at: char -> bool)
    requires QuietEdits(edits, at)
    ensures FileAudit(path, edits, pos, at) == Attributed(FileReads(path, edits, pos, at, false))
    ensures FileScan(path, edits, pos, at) == FileReads(path, edits, pos, at, true)
    decreases |edits|
  {
    hide *;
    ReadsStep(path, edits, pos, at, false);
    ReadsStep(path, edits, pos, at, true);
    if edits == [] {
      ScriptStep(path, edits, pos, at);
      RunNone(AUDIT_START, SCAN_START);
    } else {
      var e, rest := edits[0], edits[1..];
      QuietRest(edits, at);
      if e.Keep? {
        ScriptStep(path, edits, pos, at);
        QuietScript(path, rest, pos + 1, at);
      } else {
        QuietChange(path, edits, pos, at);
        var through := PathThrough(path, e.added);
        QuietScript(through, rest, pos + |e.added|, at);
        AttributedConcat(BlockRecords(path, e.added, pos + 1, false),
                         FileReads(through, rest, pos + |e.added|, at, false));
      }
    }
  }

  // ---------------------------------------------------------------- files

  lemma {:induction false} MetaLines(st: AuditState, sc: ScanState, meta: seq<string>)
    requires forall i :: 0 <= i < |meta| ==> !("+" <= meta[i]) && !("@" <= meta[i])
    requires st.file.None?
    ensures AuditRun(st, meta) == st
    ensures ScanRun(sc, meta).path == sc.path && ScanRun(sc, meta).out == sc.out
    decreases |meta|
  {
    if meta != [] {
      var line := meta[0];
      assert HunkStart(line).None?;
      MetaLines(AuditStep(st, line), ScanStep(sc, line), meta[1..]);
    }
  }

  lemma NameLineSteps(st: AuditState, sc: ScanState, f: FileDiff)
    requires !PlainlyNamed(f) ==> !("b/" <= f.unnamed)
    ensures AuditStep(st, NewName(f)) == st.(file := ReadPath(f))
    ensures ScanStep(sc, NewName(f)) == sc.(path := ReadPath(f))
  {
    var line := NewName(f);
    assert line[0] == '+';
    assert !("diff --git" <= line);
    if PlainlyNamed(f) {
      assert line[6..] == Shown(f.path.value);
      assert "+++ b/" <= line;
    } else {
      assert line[4..] == f.unnamed;
      assert |f.unnamed| >= 2 ==> line[4] == f.unnamed[0] && line[5] == f.unnamed[1];
      assert "+++ " <= line && !("+++ b/" <= line);
    }
  }

  lemma NameLines(st: AuditState, sc: ScanState, f: FileDiff)
    requires Names(f) != [] && (!PlainlyNamed(f) ==> !("b/" <= f.unnamed))
    ensures AuditRun(st, Names(f)) == st.(file := ReadPath(f))
    ensures ScanRun(sc, Names(f)) == sc.(path := ReadPath(f))
  {
    var minus := "--- " + f.oldName;
    assert minus[0] == '-';
    InertStep(st, sc, minus);
    NameLineSteps(st, sc, f);
    hide AuditStep, ScanStep, NewName, AuditRun, ScanRun, Inert;
    var second := NewName(f);
    assert Names(f) == [minus] + [second];
    assert [second] == [second] + [];
    RunCons(st, sc, minus, [second]);
    RunCons(st, sc, second, []);
    RunNone(st.(file := ReadPath(f)), sc.(path := ReadPath(f)));
  }

  lemma {:induction false} NoChangeReadsNothing(path: Option<string>, edits: seq<Edit>, pos: nat, at: char -> bool)
    ensures (forall i :: 0 <= i < |edits| ==> !edits[i].Change?) ==>
              FileAudit(path, edits, pos, at) == [] && FileScan(path, edits, pos, at) == []
    decreases |edits|
  {
    hide AuditBetween, ScanBetween, BlockRecords, PathThrough, Attributed;
    if edits != [] {
      NoChangeReadsNothing(path, edits[1..], pos + 1, at);
      assert forall i :: 0 <= i < |edits[1..]| ==> edits[1..][i] == edits[i + 1];
    }
  }

  /** The header lines record nothing, and leave the file's path current if it has hunks. */
  lemma FileHead(st: AuditState, sc: ScanState, f: FileDiff)
    requires Valid(f)
    ensures var head := ["diff --git " + f.title] + (f.meta + Names(f));
            var a, s := AuditRun(st, head), ScanRun(sc, head);
            && a.added == st.added && s.out == sc.out
            && (Names(f) != [] ==> a.file == ReadPath(f) && s.path == ReadPath(f))
  {
    var first := "diff --git " + f.title;
    assert first[0] == 'd';
    var st1, sc1 := AuditStep(st, first), ScanStep(sc, first);
    assert st1 == st.(file := None);
    assert sc1.out == sc.out;
    RunCons(st, sc, first, f.meta + Names(f));
    RunConcat(st1, sc1, f.meta, Names(f));
    MetaLines(st1, sc1, f.meta);
    var sc2 := ScanRun(sc1, f.meta);
    hide AuditStep, ScanStep, AuditRun, ScanRun, Names;
    RunNone(st1, sc2);
    if Names(f) != [] {
      NameLines(st1, sc2, f);
    }
  }

  lemma HeadCut(f: FileDiff, at: char -> bool)
    requires Boundary(at) && CleanHead(f, at)
    ensures var head := ["diff --git " + f.title] + (f.meta + Names(f));
            CutLines(RenderFile(f), at) == head + CutLines(Hunks(0, 0, f.edits), at)
  {
    var first := "diff --git " + f.title;
    var head := [first] + (f.meta + Names(f));
    assert RenderFile(f) == head + Hunks(0, 0, f.edits) by { hide Names, Hunks; }
    assert Printable("diff --git ");
    MarkedLacks("diff --git ", f.title, at);
    NamesLack(f, at);
    hide Lacks, Names, CutLines, Hunks, NewName, RenderFile, Boundary, Printable;
    assert AllLack([first], at);
    AllLackConcat(f.meta, Names(f), at);
    AllLackConcat([first], f.meta + Names(f), at);
    hide AllLack;
    CutLinesLack(head, at);
    CutLinesConcat(head, Hunks(0, 0, f.edits), at);
  }

  lemma NamesLack(f: FileDiff, at: char -> bool)
    requires Boundary(at) && CleanHead(f, at)
    ensures AllLack(Names(f), at)
  {
    assert Printable("--- ");
    MarkedLacks("--- ", f.oldName, at);
    hide Lacks, NewName, Boundary, Printable;
  }

  lemma MarkedLacks(mark: string, s: string, at: char -> bool)
    requires Boundary(at) && Printable(mark) && Lacks(s, at)
    ensures Lacks(mark + s, at)
  {
    PrintableLacks(mark, at);
    hide Boundary, Printable;
    LacksConcat(mark, s, at);
  }

  lemma LacksConcat(a: string, b: string, at: char -> bool)
    requires Lacks(a, at) && Lacks(b, at)
    ensures Lacks(a + b, at)
  {
  }

  /** One file's section, from any state. */
  lemma FileRead(st: AuditState, sc: ScanState, f: FileDiff, at: char -> bool)
    requires Boundary(at) && Valid(f) && CleanHead(f, at) && AllLack(AddedOf(f.edits), at)
    ensures var lines := CutLines(RenderFile(f), at);
            && AuditRun(st, lines).added == st.added + FileAudit(ReadPath(f), f.edits, 0, at)
            && ScanRun(sc, lines).out == sc.out + FileScan(ReadPath(f), f.edits, 0, at)
  {
    var head := ["diff --git " + f.title] + (f.meta + Names(f));
    var hunks := CutLines(Hunks(0, 0, f.edits), at);
    var a, s := AuditRun(st, head), ScanRun(sc, head);
    HeadCut(f, at);
    FileHead(st, sc, f);
    RunConcat(st, sc, head, hunks);
    HunksRead(a, s, 0, 0, f.edits, at);
    hide AuditRun, ScanRun, FileAudit, FileScan, CutLines, ReadPath, RenderFile, Hunks;
    if Names(f) == [] {
      NoChangeReadsNothing(a.file, f.edits, 0, at);
      NoChangeReadsNothing(s.path, f.edits, 0, at);
      NoChangeReadsNothing(ReadPath(f), f.edits, 0, at);
    }
  }

  /** A diff is its first file's section and the rest. */
  lemma DiffParts(files: seq<FileDiff>, at: char -> bool)
    requires files != []
    ensures var f, rest := files[0], files[1..];
            && DiffAudit(files, at) == FileAudit(ReadPath(f), f.edits, 0, at) + DiffAudit(rest, at)
            && DiffScan(files, at) == FileScan(ReadPath(f), f.edits, 0, at) + DiffScan(rest, at)
            && Render(files) == RenderFile(f) + Render(rest)
            && (AllValid(files) ==> Valid(f) && AllValid(rest))
            && (CleanHeads(files, at) ==> CleanHead(f, at) && CleanHeads(rest, at))
            && (AllLack(AllAdded(files), at) ==> AllLack(AddedOf(f.edits), at) && AllLack(AllAdded(rest), at))
  {
    hide FileAudit, FileScan, RenderFile, Valid, CleanHead, AllLack, AddedOf, ReadPath;
    AllLackConcat(AddedOf(files[0].edits), AllAdded(files[1..]), at);
  }

  /** Both parsers on a whole diff, whatever is removed, for all added texts without a boundary. */
  lemma {:induction false} DiffRead(st: AuditState, sc: ScanState, files: seq<FileDiff>, at: char -> bool)
    requires Boundary(at) && AllValid(files) && CleanHeads(files, at) && AllLack(AllAdded(files), at)
    ensures var lines := CutLines(Render(files), at);
            && AuditRun(st, lines).added == st.added + DiffAudit(files, at)
            && ScanRun(sc, lines).out == sc.out + DiffScan(files, at)
    decreases |files|
  {
    hide *;
    if files == [] {
      NoDiffRead(st, sc, at);
    } else {
      var f, rest := files[0], files[1..];
      DiffParts(files, at);
      FileRead(st, sc, f, at);
      var first, more := CutLines(RenderFile(f), at), CutLines(Render(rest), at);
      CutLinesConcat(RenderFile(f), Render(rest), at);
      RunConcat(st, sc, first, more);
      DiffRead(AuditRun(st, first), ScanRun(sc, first), rest, at);
    }
  }

  lemma {:induction false} QuietDiff(files: seq<FileDiff>, at: char -> bool)
    requires AllQuiet(files, at)
    ensures AllValid(files) && CleanHeads(files, at)
    ensures DiffAudit(files, at) == Attributed(Reads(files, at, false)) && DiffScan(files, at) == Reads(files, at, true)
  {
    RunNone(AUDIT_START, SCAN_START);
    if files != [] {
      var f, rest := files[0], files[1..];
      assert Quiet(f, at);
      hide Valid, CleanHead, QuietEdits, FileAudit, FileScan, FileReads, ReadPath, Attributed, AuditRun, ScanRun;
      assert forall i :: 0 <= i < |rest| ==> rest[i] == files[i + 1];
      QuietScript(ReadPath(f), f.edits, 0, at);
      QuietDiff(rest, at);
      AttributedConcat(FileReads(ReadPath(f), f.edits, 0, at, false), Reads(rest, at, false));
    }
  }

  /** The same when nothing strays: what comes back is `Reads`. */
  lemma QuietDiffRead(st: AuditState, sc: ScanState, files: seq<FileDiff>, at: char -> bool)
    requires Boundary(at) && AllQuiet(files, at) && AllLack(AllAdded(files), at)
    ensures var lines := CutLines(Render(files), at);
            && AuditRun(st, lines).added == st.added + Attributed(Reads(files, at, false))
            && ScanRun(sc, lines).out == sc.out + Reads(files, at, true)
  {
    hide *;
    QuietDiff(files, at);
    DiffRead(st, sc, files, at);
  }

  lemma NothingCut(at: char -> bool)
    ensures CutLines([], at) == []
  {
  }

  lemma NoDiffRead(st: AuditState, sc: ScanState, at: char -> bool)
    ensures CutLines(Render([]), at) == []
    ensures AuditRun(st, []) == st && ScanRun(sc, []) == sc
    ensures DiffAudit([], at) == [] && DiffScan([], at) == []
  {
  }
}
