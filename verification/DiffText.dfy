/** The same theorems on the text that git writes, through its decoding and each parser's way of cutting
    it into lines; and what a boundary inside a removed or an added line does. */
module DiffText {
  import opened Text
  import opened DiffParsers
  import opened DiffCut
  import opened DiffRender
  import opened DiffReading
  import opened DiffTheorems
  import opened DiffAgreement
  import opened DiffExact

  /** git ends every line of a diff with a line feed, and no line holds another. */
  predicate Feedless(lines: seq<string>) {
    forall l :: l in lines ==> '\n' !in l
  }

  function AuditText(output: string): seq<Added> {
    AuditRun(AUDIT_START, Split(Translated(output), '\n')).added
  }

  function ScanText(output: string): seq<Yielded> {
    ScanRun(SCAN_START, SplitLines(Translated(output))).out
  }

  /** On the text both parsers read the printed lines cut at their boundaries. */
  lemma TextIsCut(lines: seq<string>)
    requires Feedless(lines)
    ensures AuditText(Raw(lines)) == AuditRun(AUDIT_START, CutLines(lines, IsReturn)).added
    ensures ScanText(Raw(lines)) == ScanRun(SCAN_START, CutLines(lines, IsBreak)).out
  {
    SplitRaw(lines);
    SplitLinesRaw(lines);
    var st := AuditRun(AUDIT_START, CutLines(lines, IsReturn));
    AuditRunConcat(AUDIT_START, CutLines(lines, IsReturn), [""]);
    InertLines(st, SCAN_START, [""]);
  }

  /** `parse_added` on git's output, when nothing cut off a removed line or a heading looks like an added
      line: right if and only if the added texts are plain and hold no carriage return, and wherever lines are
      added the auditor has come to the true name and number. */
  lemma ParseAddedOfDiff(files: seq<FileDiff>)
    requires AllValid(files) && CleanHeads(files, IsReturn) && Feedless(Render(files))
    requires AllNoStrayRecords(files, IsReturn)
    ensures Lift(AuditText(Raw(Render(files)))) == Records(files) <==>
            AllPlain(AllAdded(files)) && AllLack(AllAdded(files), IsReturn) && AllAuditTrue(files, IsReturn)
  {
    hide *;
    Boundaries();
    TextIsCut(Render(files));
    AuditReadsExactly(files, IsReturn);
  }

  /** Where whatever is cut off is inert, that comes to the names. */
  lemma QuietParseAdded(files: seq<FileDiff>)
    requires AllQuiet(files, IsReturn) && Feedless(Render(files))
    ensures Lift(AuditText(Raw(Render(files)))) == Records(files) <==>
            && AllPlain(AllAdded(files)) && AllNamed(files) && AllLegible(files)
            && AllLack(AllAdded(files), IsReturn)
  {
    hide *;
    Boundaries();
    TextIsCut(Render(files));
    AuditReadsDiff(files, IsReturn);
  }

  /** `_added_lines` on git's output, whatever is removed and added: right if and only if the added texts are
      plain and hold none of the scanner's boundaries, and what lies between a hunk's ranges and its added
      lines yields nothing and comes to the true path and number. */
  lemma AddedLinesOfDiff(files: seq<FileDiff>)
    requires AllValid(files) && CleanHeads(files, IsBreak) && Feedless(Render(files))
    ensures ScanText(Raw(Render(files))) == Records(files) <==>
            AllPlain(AllAdded(files)) && AllLack(AllAdded(files), IsBreak) && AllScanTrue(files, IsBreak)
  {
    hide *;
    Boundaries();
    TextIsCut(Render(files));
    ScanReadsExactly(files, IsBreak);
  }

  /** Where whatever is cut off is inert, that comes to the names, and to no marker and no piece that counts
      in a hunk that adds lines. */
  lemma QuietAddedLines(files: seq<FileDiff>)
    requires AllQuiet(files, IsBreak) && Feedless(Render(files))
    ensures ScanText(Raw(Render(files))) == Records(files) <==>
            && AllPlain(AllAdded(files)) && AllLegible(files) && FilesUnmoved(files, IsBreak)
            && AllLack(AllAdded(files), IsBreak)
  {
    hide *;
    Boundaries();
    TextIsCut(Render(files));
    ScanReadsDiff(files, IsBreak);
  }

  /** What both return when no added text holds a boundary, whatever else is added or removed. */
  lemma TextParsed(files: seq<FileDiff>)
    requires AllValid(files) && Feedless(Render(files))
    ensures CleanHeads(files, IsReturn) && AllLack(AllAdded(files), IsReturn) ==>
              AuditText(Raw(Render(files))) == DiffAudit(files, IsReturn)
    ensures CleanHeads(files, IsBreak) && AllLack(AllAdded(files), IsBreak) ==>
              ScanText(Raw(Render(files))) == DiffScan(files, IsBreak)
  {
    hide *;
    Boundaries();
    Beginnings();
    TextIsCut(Render(files));
    if CleanHeads(files, IsReturn) && AllLack(AllAdded(files), IsReturn) {
      DiffRead(AUDIT_START, SCAN_START, files, IsReturn);
    }
    if CleanHeads(files, IsBreak) && AllLack(AllAdded(files), IsBreak) {
      DiffRead(AUDIT_START, SCAN_START, files, IsBreak);
    }
  }

  // ---------------------------------------------------------------- agreement

  lemma {:induction false} TranslatedReturnFree(s: string)
    ensures '\r' !in Translated(s)
    decreases |s|
  {
    if s != "" {
      TranslatedReturnFree(s[1..]);
      if |s| > 1 {
        TranslatedReturnFree(s[2..]);
      }
    }
  }

  /** The text behind the last line feed is cut alike, but for an empty last piece. */
  lemma {:induction false} LastPieces(s: string)
    requires '\r' !in s
    ensures SplitLines(s) == CutAt(s, IsBreak) || SplitLines(s) + [""] == CutAt(s, IsBreak)
    decreases |s|
  {
    hide SplitLines, CutAt;
    var n := FindBreak(s);
    if n == |s| {
      assert Lacks(s, IsBreak);
      CutAtLacks(s, IsBreak);
      UnbrokenLine(s);
    } else {
      var a, c, b := s[..n], s[n], s[n + 1..];
      assert s == a + [c] + b && Lacks(a, IsBreak) && c in s;
      LastPieces(b);
      hide FindBreak, IsBreak, Lacks;
      SplitLinesStep(a, c, b);
      CutAtConcat(a, c, b, IsBreak);
      CutAtLacks(a, IsBreak);
      assert [a] + (SplitLines(b) + [""]) == [a] + SplitLines(b) + [""];
    }
  }

  lemma UnbrokenLine(s: string)
    requires FindBreak(s) == |s|
    ensures SplitLines(s) == if s == "" then [] else [s]
  {
  }

  /** An empty line behind all others yields nothing. */
  lemma EmptyLast(sc: ScanState, lines: seq<string>)
    ensures ScanRun(sc, lines + [""]).out == ScanRun(sc, lines).out
  {
    ScanRunConcat(sc, lines, [""]);
    InertLines(AUDIT_START, ScanRun(sc, lines), [""]);
    hide ScanRun;
  }

  /** The scanner reads the auditor's lines, cut further. */
  lemma {:induction false} ScannedLineByLine(sc: ScanState, text: string)
    requires '\r' !in text
    ensures ScanRun(sc, SplitLines(text)).out == ScanAll(sc, Split(text, '\n')).out
    decreases |text|
  {
    hide SplitLines, CutAt, ScanRun, ScanStep, Split;
    SplitParts(text, '\n');
    if '\n' !in text {
      assert Split(text, '\n') == [text];
      assert ScanAll(sc, [text]) == ScanAll(ScanPieces(sc, text), [text][1..]) == ScanRun(sc, CutAt(text, IsBreak));
      LastPieces(text);
      EmptyLast(sc, SplitLines(text));
    } else {
      var n := Find(text, '\n');
      var a, b := text[..n], text[n + 1..];
      assert text == a + ['\n'] + b && Returned(a) == a;
      SplitConcat(a, '\n', b);
      SplitParts(a, '\n');
      SplitLinesReturned(a, b);
      ScanRunConcat(sc, CutAt(a, IsBreak), SplitLines(b));
      ScannedLineByLine(ScanPieces(sc, a), b);
      assert ([a] + Split(b, '\n'))[1..] == Split(b, '\n');
    }
  }

  /** The two parsers agree on what git writes, whatever it is, if and only if at each of the auditor's lines
      the scanner reads nothing, or reads that line whole while both stand at one path and number. */
  lemma TextsAgree(output: string)
    ensures Lift(AuditText(output)) == ScanText(output) <==>
            LinesAgree(AUDIT_START, SCAN_START, Split(Translated(output), '\n'))
  {
    TranslatedReturnFree(output);
    ScannedLineByLine(SCAN_START, Translated(output));
    LinesReadAlike(AUDIT_START, SCAN_START, Split(Translated(output), '\n'));
    hide AuditRun, ScanRun, ScanAll, Translated, Split, SplitLines, LinesAgree, Lift;
  }

  /** For printed diffs in which no added text holds a boundary and whatever is cut off is inert: if and only
      if the scanner is in step and a path current at every plain added text. */
  lemma QuietTextsAgree(files: seq<FileDiff>)
    requires AllQuiet(files, IsReturn) && AllQuiet(files, IsBreak) && Feedless(Render(files))
    requires AllLack(AllAdded(files), IsBreak)
    ensures Lift(AuditText(Raw(Render(files)))) == ScanText(Raw(Render(files))) <==>
            AllInStep(files, IsBreak) && AllAttributable(files)
  {
    BreaksHoldReturns(AllAdded(files));
    hide *;
    Boundaries();
    TextIsCut(Render(files));
    ReadersAgree(files, IsReturn, IsBreak);
  }

  lemma BreaksHoldReturns(texts: seq<string>)
    requires AllLack(texts, IsBreak)
    ensures AllLack(texts, IsReturn)
  {
    assert IsBreak('\r');
    hide IsBreak;
    forall i | 0 <= i < |texts|
      ensures Lacks(texts[i], IsReturn)
    {
      assert Lacks(texts[i], IsBreak);
    }
  }

  // ---------------------------------------------------------------- boundaries inside lines

  /** The pieces of a line with one boundary in it. */
  lemma CutOnce(mark: char, a: string, cut: char, b: string, at: char -> bool)
    requires !at(mark) && Lacks(a, at) && at(cut) && Lacks(b, at) && (b == "" ==> cut != '\r')
    ensures Cut([mark] + a + [cut] + b, at) == [[mark] + a, b]
  {
    var first := [mark] + a;
    var line := first + [cut] + b;
    assert Lacks(first, at);
    assert line[|line| - 1] == if b == "" then cut else b[|b| - 1];
    assert DropReturn(line, at) == line;
    CutAtConcat(first, cut, b, at);
    hide CutAt;
    CutAtLacks(first, at);
    CutAtLacks(b, at);
  }

  /** An added line is read as its first piece, and what is cut off as lines of their own: the text itself
      comes back only if there is no boundary in it, and if what is cut off is inert no other does. */
  lemma AddedBreakCuts(st: AuditState, sc: ScanState, text: string, at: char -> bool)
    requires Boundary(at)
    ensures var lines, head, rest := CutLines([['+'] + text], at), Cut(text, at)[0], Cut(text, at)[1..];
            && lines == [['+'] + head] + rest
            && AuditRun(st, lines) == AuditRun(AuditStep(st, ['+'] + head), rest)
            && ScanRun(sc, lines) == ScanRun(ScanStep(sc, ['+'] + head), rest)
            && (if Lacks(text, at) then head == text && rest == [] else |head| < |text|)
            && ((forall l :: l in rest ==> Inert(l)) && Plain(head) ==>
                 && AuditRun(st, lines).added == st.added + Attributed([Yielded(st.file, st.newLine, head)])
                 && ScanRun(sc, lines).out == sc.out + [Yielded(sc.path, sc.newNo, head)]
                 && ScanRun(sc, lines).newNo == sc.newNo + 1 + Strays(rest))
  {
    var head, rest := Cut(text, at)[0], Cut(text, at)[1..];
    PlusIsNoBoundary(at);
    assert Lacks("+", at);
    CutPrefix("+", text, at);
    assert "+" + text == ['+'] + text && "+" + head == ['+'] + head;
    CutLinesOne(['+'] + text, at);
    HeadIsShorter(text, at);
    PlusLineSteps(st, sc, head);
    var st', sc' := AuditStep(st, ['+'] + head), ScanStep(sc, ['+'] + head);
    if forall l :: l in rest ==> Inert(l) {
      InertLines(st', sc', rest);
    }
    hide *;
    RunCons(st, sc, ['+'] + head, rest);
  }

  lemma HeadIsShorter(text: string, at: char -> bool)
    ensures if Lacks(text, at) then Cut(text, at) == [text] else |Cut(text, at)[0]| < |text|
  {
    if Lacks(text, at) {
      CutLacks(text, at);
    } else {
      var s := DropReturn(text, at);
      var i :| 0 <= i < |text| && at(text[i]);
      var head := Cut(text, at)[0];
      PieceIsPrefix(s, at);
      PiecesLack(s, at);
      hide CutAt;
      assert head in CutAt(s, at);
      assert forall k :: 0 <= k < |head| ==> head[k] == s[k] == text[k] && !at(head[k]);
    }
  }

  /** A removed line whose rest behind a boundary opens with a plus sign: the rest is read as an added line,
      and makes up a record or, if it opens with three, may name another file. */
  lemma RemovedBreakForges(st: AuditState, sc: ScanState, a: string, cut: char, b: string, at: char -> bool)
    requires Boundary(at) && Lacks(a, at) && at(cut) && Lacks(b, at)
    ensures var lines := CutLines([['-'] + a + [cut] + (['+'] + b)], at);
            && AuditRun(st, lines) ==
               (if Plain(b) then AuditState(st.file, st.newLine + 1,
                                            st.added + Attributed([Yielded(st.file, st.newLine, b)]))
                else st.(file := PathAfter(st.file, b)))
            && ScanRun(sc, lines) ==
               (if Plain(b) then ScanState(sc.path, sc.newNo + 1, sc.out + [Yielded(sc.path, sc.newNo, b)])
                else ScanState(PathAfter(sc.path, b), sc.newNo + if OnlyCounted(b) then 1 else 0, sc.out))
  {
    var minus, plus := ['-'] + a, ['+'] + b;
    assert Lacks(plus, at);
    CutOnce('-', a, cut, plus, at);
    PlusLineSteps(st, sc, b);
    assert minus[0] == '-';
    assert Inert(minus) && "-" <= minus;
    hide *;
    InertStep(st, sc, minus);
    CutLinesOne(minus + [cut] + plus, at);
    assert ['-'] + a + [cut] + (['+'] + b) == minus + [cut] + plus;
    assert [minus, plus] == [minus] + [plus] && [plus] == [plus] + [];
    RunCons(st, sc, minus, [plus]);
    RunCons(st, sc, plus, []);
    RunNone(AuditStep(st, plus), ScanStep(sc, plus));
  }

  /** Why the auditor's condition needs its hypothesis: a record made up from a removed line can stand in for
      an added line that is lost, and the result is right by accident. */
  lemma StrayStandsIn(name: string)
    requires name != ""
    ensures var e := Change(["a\r+y", "b\rdiff --git"], false, ["y"], false, "");
            && Lift(FileAudit(Some(name), [e], 0, IsReturn)) == FileRecords(Some(name), [e], 0)
            && !AuditTrue(Some(name), Some(name), [e], 0, IsReturn)
  {
    var e := Change(["a\r+y", "b\rdiff --git"], false, ["y"], false, "");
    StandInBetween(name);
    var st := AuditBetween(Some(name), e, 0, IsReturn);
    PlainBlock(None, ["y"], 2, false);
    AttributedCons(Yielded(None, 2, "y"), []);
    RunNone(AUDIT_START, SCAN_START);
    assert Numbered(None, ["y"], 2) == [Yielded(None, 2, "y")] + Numbered(None, [], 3);
    assert Numbered(None, [], 3) == [];
    assert AllPlain(["y"]);
    hide AuditBetween, Attributed, BlockRecords;
    assert [e][1..] == [];
    assert FileAudit(Some(name), [e], 0, IsReturn) == [Added(name, 1, "y")];
    LiftCons(Added(name, 1, "y"), []);
    assert FileRecords(Some(name), [e], 0) == Numbered(Some(name), ["y"], 1) + [];
    assert Numbered(Some(name), ["y"], 1) == [Yielded(Some(name), 1, "y")] + Numbered(Some(name), [], 2);
    assert [Added(name, 1, "y")] == [Added(name, 1, "y")] + [];
  }

  lemma StandInBetween(name: string)
    requires name != ""
    ensures var e := Change(["a\r+y", "b\rdiff --git"], false, ["y"], false, "");
            AuditBetween(Some(name), e, 0, IsReturn) == AuditState(None, 2, [Added(name, 1, "y")])
  {
    var e := Change(["a\r+y", "b\rdiff --git"], false, ["y"], false, "");
    StandInLines();
    StandInRun(name);
    hide Between, AuditRun;
    assert Start(0, |e.added|) == 1;
  }

  lemma StandInLines()
    ensures Between(Change(["a\r+y", "b\rdiff --git"], false, ["y"], false, ""), IsReturn)
            == ["-a"] + (["+y"] + (["-b"] + (["diff --git"] + [])))
  {
    assert "a\r+y" == "a" + ['\r'] + "+y" && "b\rdiff --git" == "b" + ['\r'] + "diff --git";
    assert ['-'] + "a" == "-a" && ['-'] + "b" == "-b";
    hide Between;
    TwoCutRemoved("a", "+y", "b", "diff --git", ["y"]);
  }

  lemma PrefixedTwo(mark: char, a: string, b: string)
    ensures Prefixed(mark, [a, b]) == [[mark] + a] + [[mark] + b]
  {
    assert [a, b][1..] == [b] && [b][1..] == [];
    assert Prefixed(mark, [b]) == [[mark] + b];
  }

  /** What lies between in a hunk that removes two lines with a return in each. */
  lemma TwoCutRemoved(a: string, b: string, c: string, d: string, added: seq<string>)
    requires Lacks(a, IsReturn) && Lacks(b, IsReturn) && Lacks(c, IsReturn) && Lacks(d, IsReturn)
    requires b != "" && d != ""
    ensures Between(Change([a + ['\r'] + b, c + ['\r'] + d], false, added, false, ""), IsReturn)
            == [['-'] + a] + ([b] + ([['-'] + c] + ([d] + [])))
  {
    var e := Change([a + ['\r'] + b, c + ['\r'] + d], false, added, false, "");
    var first, second := ['-'] + a + ['\r'] + b, ['-'] + c + ['\r'] + d;
    assert ['-'] + (a + ['\r'] + b) == first && ['-'] + (c + ['\r'] + d) == second;
    CutOnce('-', a, '\r', b, IsReturn);
    CutOnce('-', c, '\r', d, IsReturn);
    CutLacks("", IsReturn);
    hide Cut, CutLines, Lacks;
    PrefixedTwo('-', a + ['\r'] + b, c + ['\r'] + d);
    assert Marker(false) == [];
    hide Prefixed, Marker;
    CutLinesConcat([first], [second], IsReturn);
    CutLinesOne(first, IsReturn);
    CutLinesOne(second, IsReturn);
    BetweenIs(e, IsReturn);
    hide Between;
    assert [['-'] + a, b] + [['-'] + c, d] == [['-'] + a] + ([b] + ([['-'] + c] + ([d] + [])));
  }

  lemma StandInRun(name: string)
    requires name != ""
    ensures AuditRun(AuditState(Some(name), 1, []), ["-a"] + (["+y"] + (["-b"] + (["diff --git"] + []))))
            == AuditState(None, 2, [Added(name, 1, "y")])
  {
    var st, st1 := AuditState(Some(name), 1, []), AuditState(Some(name), 2, [Added(name, 1, "y")]);
    assert "-a"[0] == '-' && "-b"[0] == '-';
    InertStep(st, SCAN_START, "-a");
    InertStep(st1, SCAN_START, "-b");
    assert AuditStep(st1, "diff --git") == AuditState(None, 2, st1.added) by { hide HunkStart; }
    assert AuditStep(st, "+y") == st1 by {
      hide HunkStart;
      HunkOpens("+y");
    }
    hide *;
    RunCons(st, SCAN_START, "-a", ["+y"] + (["-b"] + (["diff --git"] + [])));
    RunCons(st, SCAN_START, "+y", ["-b"] + (["diff --git"] + []));
    RunCons(st1, SCAN_START, "-b", ["diff --git"] + []);
    RunCons(st1, SCAN_START, "diff --git", []);
    RunNone(AuditState(None, 2, st1.added), SCAN_START);
  }

  lemma {:induction false} RemovedStrays(removed: seq<string>, k: nat, at: char -> bool)
    requires k < |removed|
    ensures Strays(CutLines(Prefixed('-', removed), at)) >= Strays(Cut(['-'] + removed[k], at))
  {
    var lines, rest := Prefixed('-', removed), removed[1..];
    assert lines[1..] == Prefixed('-', rest);
    hide Cut, Strays, Prefixed;
    StraysConcat(Cut(['-'] + removed[0], at), CutLines(Prefixed('-', rest), at));
    assert lines[0] == ['-'] + removed[0] by { PrefixedHead('-', removed); }
    if k > 0 {
      RemovedStrays(rest, k - 1, at);
    }
  }

  lemma PrefixedHead(mark: char, texts: seq<string>)
    requires texts != []
    ensures Prefixed(mark, texts) != [] && Prefixed(mark, texts)[0] == [mark] + texts[0]
  {
  }

  /** Somewhere in a script that is read right, its edit is. */
  lemma {:induction false} TrueAt(path: Option<string>, truth: Option<string>, edits: seq<Edit>, pos: nat,
                                  at: char -> bool, j: nat) returns (here: Option<string>, number: nat)
    requires ScanTrue(path, truth, edits, pos, at) && j < |edits| && edits[j].Change? && edits[j].added != []
    ensures ScanBetween(here, edits[j], number, at).newNo == number + 1
    decreases |edits|
  {
    ScanTrueStep(path, truth, edits, pos, at);
    hide ScanTrue, ScanBetween;
    if j == 0 {
      here, number := path, pos;
    } else {
      match edits[0] {
        case Keep(_) =>
          here, number := TrueAt(path, truth, edits[1..], pos + 1, at, j - 1);
        case Change(_, _, added, _, _) =>
          var s := ScanBetween(path, edits[0], pos, at);
          here, number := TrueAt(s.path, truth, edits[1..], pos + |added|, at, j - 1);
      }
    }
  }

  /** In any whole diff: one removed line with a boundary in it and a rest that does not open with a minus
      sign, in a hunk that adds lines and in which what is cut off is inert, and the scanner is wrong. */
  lemma RemovedBreakSlips(files: seq<FileDiff>, i: nat, j: nat, k: nat, a: string, cut: char, b: string)
    requires AllValid(files) && CleanHeads(files, IsBreak) && Feedless(Render(files))
    requires i < |files| && j < |files[i].edits| && files[i].edits[j].Change? && files[i].edits[j].added != []
    requires QuietEdit(files[i].edits[j], IsBreak)
    requires k < |files[i].edits[j].removed| && files[i].edits[j].removed[k] == a + [cut] + b
    requires Lacks(a, IsBreak) && IsBreak(cut) && Lacks(b, IsBreak)
    requires (b == "" ==> cut != '\r') && !("-" <= b)
    ensures ScanText(Raw(Render(files))) != Records(files)
  {
    var f, e := files[i], files[i].edits[j];
    if AllScanTrue(files, IsBreak) {
      var here, number := TrueAt(ReadPath(f), f.path, f.edits, 0, IsBreak, j);
      hide *;
      CutRemovedCounts(e, k, a, cut, b);
      StartAbove(number, |e.added|);
      QuietBetween(here, e, number, IsBreak);
      assert false;
    }
    hide *;
    AddedLinesOfDiff(files);
  }

  lemma StartAbove(pos: nat, count: nat)
    requires count > 0
    ensures Start(pos, count) == pos + 1
  {
  }

  lemma CutRemovedCounts(e: Edit, k: nat, a: string, cut: char, b: string)
    requires e.Change? && k < |e.removed| && e.removed[k] == a + [cut] + b
    requires Lacks(a, IsBreak) && IsBreak(cut) && Lacks(b, IsBreak)
    requires (b == "" ==> cut != '\r') && !("-" <= b)
    ensures Strays(Between(e, IsBreak)) >= 1
  {
    var minus, mark := CutLines(Prefixed('-', e.removed), IsBreak), Marker(e.oldNoEol && e.removed != []);
    assert ['-'] + e.removed[k] == ['-'] + a + [cut] + b;
    CutOnce('-', a, cut, b, IsBreak);
    assert (['-'] + a)[0] == '-';
    hide Cut, CutLines, Strays, Prefixed, Marker, IsBreak, Lacks;
    OneStray(['-'] + a, b);
    RemovedStrays(e.removed, k, IsBreak);
    BetweenIs(e, IsBreak);
    StraysConcat(Cut(e.section, IsBreak)[1..], minus + mark);
    StraysConcat(minus, mark);
  }

  lemma OneStray(first: string, second: string)
    requires "-" <= first && !("-" <= second)
    ensures Strays([first, second]) == 1
  {
    assert [first, second][1..] == [second] && [second][1..] == [];
    assert Strays([second]) == 1;
  }

  /** No boundary but perhaps a return at the end, as in files with CRLF line ends. */
  predicate Whole(text: string, at: char -> bool) {
    Lacks(DropReturn(text, at), at)
  }

  lemma CutWhole(pre: string, text: string, at: char -> bool)
    requires Lacks(pre, at) && Whole(text, at)
    ensures Cut(pre + text, at) == [pre + DropReturn(text, at)] && Cut(text, at)[1..] == []
  {
    CutPrefix(pre, text, at);
    CutAtLacks(DropReturn(text, at), at);
  }

  lemma {:induction false} WholeRemoved(removed: seq<string>, at: char -> bool)
    requires Boundary(at) && forall r :: r in removed ==> Whole(r, at)
    ensures forall l :: l in CutLines(Prefixed('-', removed), at) ==> Inert(l)
    ensures Strays(CutLines(Prefixed('-', removed), at)) == 0
  {
    if removed != [] {
      var line := ['-'] + removed[0];
      assert Lacks("-", at) && "-" + removed[0] == line;
      assert removed[0] in removed;
      CutWhole("-", removed[0], at);
      WholeRemoved(removed[1..], at);
      var piece := "-" + DropReturn(removed[0], at);
      assert piece[0] == '-';
      hide Cut, Lacks, Whole;
      assert Prefixed('-', removed) == [line] + Prefixed('-', removed[1..]);
      CutLinesOne(line, at);
      CutLinesConcat([line], Prefixed('-', removed[1..]), at);
      StraysConcat([piece], CutLines(Prefixed('-', removed[1..]), at));
      assert [piece][1..] == [];
    }
  }

  /** Removed lines and headings of such files are quiet, and only the marker counts. */
  lemma WholeLinesAreQuiet(e: Edit, at: char -> bool)
    requires Boundary(at) && e.Change? && Whole(e.section, at) && forall r :: r in e.removed ==> Whole(r, at)
    ensures QuietEdit(e, at)
    ensures Strays(Between(e, at)) == if e.oldNoEol && e.removed != [] then 1 else 0
  {
    var minus, mark := CutLines(Prefixed('-', e.removed), at), Marker(e.oldNoEol && e.removed != []);
    WholeRemoved(e.removed, at);
    assert Lacks("", at);
    CutWhole("", e.section, at);
    MarkerStrays(e.oldNoEol && e.removed != []);
    hide Cut, CutLines, Strays, Prefixed, Marker, Inert, Whole, Lacks;
    BetweenIs(e, at);
    StraysConcat(minus, mark);
    assert Between(e, at) == minus + mark;
  }
}
