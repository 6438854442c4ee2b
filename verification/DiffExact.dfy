/** The exact conditions for whole diffs in which pieces cut off removed lines and headings may do what
    they like: open hunks, name files, or look like added lines. */
module DiffExact {
  import opened Text
  import opened DiffParsers
  import opened DiffCut
  import opened DiffRender
  import opened DiffReading
  import opened DiffTheorems

  // ---------------------------------------------------------------- texts and lengths

  /** Neither parser returns a text that opens with two plus signs. */
  lemma ReadTextsPlain(lines: seq<string>)
    ensures forall a :: a in AuditRun(AUDIT_START, lines).added ==> Plain(a.text)
    ensures forall y :: y in ScanRun(SCAN_START, lines).out ==> Plain(y.text)
  {
    PlusTextsPlain(lines);
    RecordsAtMostPlusLines(AUDIT_START, lines);
    ScannedTexts(SCAN_START, lines);
    TextsAt(ScanRun(SCAN_START, lines).out);
    hide AuditRun, ScanRun, PlusTexts, Plain;
    var out := ScanRun(SCAN_START, lines).out;
    assert Texts([]) == [];
    forall y | y in out
      ensures Plain(y.text)
    {
      var k :| 0 <= k < |out| && out[k] == y;
      assert Texts(out)[k] in PlusTexts(lines);
    }
  }

  lemma {:induction false} PlusTextsPlain(lines: seq<string>)
    ensures forall t :: t in PlusTexts(lines) ==> Plain(t)
  {
    if lines != [] {
      PlusTextsPlain(lines[1..]);
      if PlusLine(lines[0]) {
        assert lines[0] == ['+'] + lines[0][1..];
        PlusLineOpens(lines[0][1..]);
      }
      hide PlusLine, Plain;
    }
  }

  /** A first part that is to be empty, two of one length, and a rest that is not the shorter. */
  lemma ThreeParts<T>(x: seq<T>, b: seq<T>, r: seq<T>, n: seq<T>, t: seq<T>)
    requires |b| == |n| && |r| >= |t|
    ensures x + (b + r) == n + t <==> x == [] && b == n && r == t
  {
    if x + (b + r) == n + t {
      assert |x + (b + r)| == |x| + |b| + |r|;
      assert x == [] && x + (b + r) == b + r;
      ConcatEqual(b, r, n, t);
    }
  }

  lemma ConcatEqualAbove<T>(a: seq<T>, b: seq<T>, c: seq<T>, d: seq<T>)
    requires |a| >= |c| && |b| >= |d|
    ensures a + b == c + d <==> a == c && b == d
  {
    ConcatEqualBelow(c, d, a, b);
  }

  // ---------------------------------------------------------------- the scanner

  /** Between every hunk's ranges and its added lines the scanner yields nothing, and comes to the true path
      and number where lines are added. */
  predicate ScanTrue(path: Option<string>, truth: Option<string>, edits: seq<Edit>, pos: nat, at: char -> bool)
    decreases |edits|
  {
    edits == []
    || match edits[0]
       case Keep(_) => ScanTrue(path, truth, edits[1..], pos + 1, at)
       case Change(_, _, added, _, _) =>
         var s := ScanBetween(path, edits[0], pos, at);
         && s.out == [] && (added == [] || (s.path == truth && s.newNo == pos + 1))
         && ScanTrue(s.path, truth, edits[1..], pos + |added|, at)
  }

  predicate AllScanTrue(files: seq<FileDiff>, at: char -> bool) {
    forall i :: 0 <= i < |files| ==> ScanTrue(ReadPath(files[i]), files[i].path, files[i].edits, 0, at)
  }

  lemma {:induction false} FileScanSize(path: Option<string>, edits: seq<Edit>, pos: nat, at: char -> bool)
    requires AllPlain(AddedOf(edits))
    ensures |FileScan(path, edits, pos, at)| >= |AddedOf(edits)|
    decreases |edits|
  {
    ScriptStep(path, edits, pos, at);
    AddedStep(edits);
    hide FileScan, FileAudit, AddedOf, AllPlain, ScanBetween, AuditBetween, BlockRecords, PathThrough, Attributed;
    if edits != [] {
      match edits[0] {
        case Keep(_) =>
          assert AddedOf(edits) == AddedOf(edits[1..]);
          FileScanSize(path, edits[1..], pos + 1, at);
        case Change(_, _, added, _, _) =>
          var s := ScanBetween(path, edits[0], pos, at);
          AllPlainConcat(added, AddedOf(edits[1..]));
          BlockSize(s.path, added, s.newNo, true);
          PlainCountFull(added);
          FileScanSize(PathThrough(s.path, added), edits[1..], pos + |added|, at);
      }
    }
  }

  lemma ScanTrueStep(path: Option<string>, truth: Option<string>, edits: seq<Edit>, pos: nat, at: char -> bool)
    ensures ScanTrue(path, truth, [], pos, at)
    ensures edits != [] ==>
              (ScanTrue(path, truth, edits, pos, at) <==>
               match edits[0]
               case Keep(_) => ScanTrue(path, truth, edits[1..], pos + 1, at)
               case Change(_, _, added, _, _) =>
                 var s := ScanBetween(path, edits[0], pos, at);
                 && s.out == [] && (added == [] || (s.path == truth && s.newNo == pos + 1))
                 && ScanTrue(s.path, truth, edits[1..], pos + |added|, at))
  {
    hide ScanBetween;
  }

  lemma {:induction false} FileScanRight(path: Option<string>, truth: Option<string>, edits: seq<Edit>, pos: nat,
                                         at: char -> bool)
    requires AllPlain(AddedOf(edits))
    ensures FileScan(path, edits, pos, at) == FileRecords(truth, edits, pos) <==> ScanTrue(path, truth, edits, pos, at)
    decreases |edits|
  {
    hide *;
    ScriptStep(path, edits, pos, at);
    RecordsStep(truth, edits, pos);
    ScanTrueStep(path, truth, edits, pos, at);
    AddedStep(edits);
    if edits != [] {
      var rest := edits[1..];
      match edits[0] {
        case Keep(_) =>
          assert AddedOf(edits) == AddedOf(rest);
          FileScanRight(path, truth, rest, pos + 1, at);
        case Change(_, _, added, _, _) =>
          var s := ScanBetween(path, edits[0], pos, at);
          AllPlainConcat(added, AddedOf(rest));
          PlainBlock(s.path, added, s.newNo, true);
          BlockRight(s.path, added, s.newNo, true, truth, pos + 1);
          NumberedShape(s.path, added, s.newNo);
          NumberedShape(truth, added, pos + 1);
          FileScanRight(s.path, truth, rest, pos + |added|, at);
          FileScanSize(s.path, rest, pos + |added|, at);
          FileRecordTexts(truth, rest, pos + |added|);
          ThreeParts(s.out, BlockRecords(s.path, added, s.newNo, true), FileScan(s.path, rest, pos + |added|, at),
                     Numbered(truth, added, pos + 1), FileRecords(truth, rest, pos + |added|));
      }
    }
  }

  lemma AllScanTrueStep(files: seq<FileDiff>, at: char -> bool)
    ensures AllScanTrue([], at)
    ensures files != [] ==>
              (AllScanTrue(files, at) <==>
               ScanTrue(ReadPath(files[0]), files[0].path, files[0].edits, 0, at) && AllScanTrue(files[1..], at))
  {
    hide ScanTrue, ReadPath;
    if files != [] {
      assert forall i :: 0 <= i < |files[1..]| ==> files[1..][i] == files[i + 1];
      assert forall i :: 0 < i < |files| ==> files[i] == files[1..][i - 1];
    }
  }

  lemma DiffStep(files: seq<FileDiff>, at: char -> bool)
    ensures DiffScan([], at) == [] && DiffAudit([], at) == [] && Records([]) == [] && AllAdded([]) == []
    ensures files != [] ==>
              && DiffScan(files, at)
                 == FileScan(ReadPath(files[0]), files[0].edits, 0, at) + DiffScan(files[1..], at)
              && DiffAudit(files, at)
                 == FileAudit(ReadPath(files[0]), files[0].edits, 0, at) + DiffAudit(files[1..], at)
              && Records(files) == FileRecords(files[0].path, files[0].edits, 0) + Records(files[1..])
              && AllAdded(files) == AddedOf(files[0].edits) + AllAdded(files[1..])
  {
    hide FileScan, FileAudit, FileRecords, AddedOf, ReadPath;
  }

  lemma {:induction false} DiffScanRight(files: seq<FileDiff>, at: char -> bool)
    requires AllPlain(AllAdded(files))
    ensures |DiffScan(files, at)| >= |AllAdded(files)|
    ensures DiffScan(files, at) == Records(files) <==> AllScanTrue(files, at)
  {
    hide *;
    DiffStep(files, at);
    AllScanTrueStep(files, at);
    if files != [] {
      var f, rest := files[0], files[1..];
      AllPlainConcat(AddedOf(f.edits), AllAdded(rest));
      FileScanRight(ReadPath(f), f.path, f.edits, 0, at);
      FileScanSize(ReadPath(f), f.edits, 0, at);
      FileRecordTexts(f.path, f.edits, 0);
      DiffScanRight(rest, at);
      RecordTexts(rest);
      ConcatEqualAbove(FileScan(ReadPath(f), f.edits, 0, at), DiffScan(rest, at),
                       FileRecords(f.path, f.edits, 0), Records(rest));
    }
  }

  /** The scanner on any diff, whatever is removed and added: right if and only if the added texts are plain
      and hold no boundary, and what lies between yields nothing and comes to the true path and number. */
  lemma ScanReadsExactly(files: seq<FileDiff>, at: char -> bool)
    requires Boundary(at) && AllValid(files) && CleanHeads(files, at)
    ensures ScanRun(SCAN_START, CutLines(Render(files), at)).out == Records(files) <==>
            AllPlain(AllAdded(files)) && AllLack(AllAdded(files), at) && AllScanTrue(files, at)
  {
    var lines, texts := CutLines(Render(files), at), AllAdded(files);
    var out := ScanRun(SCAN_START, lines).out;
    RecordTexts(files);
    ReadTextsLack(files, at);
    ReadTextsPlain(lines);
    hide AuditRun, ScanRun, CutLines, Render, Records, AllAdded, Boundary, Lacks, Plain;
    hide AllScanTrue, DiffScan, DiffAudit;
    if out == Records(files) {
      forall k | 0 <= k < |texts|
        ensures Plain(texts[k]) && Lacks(texts[k], at)
      {
        assert out[k] in out;
      }
    }
    if AllPlain(texts) && AllLack(texts, at) {
      DiffRead(AUDIT_START, SCAN_START, files, at);
      Beginnings();
      DiffScanRight(files, at);
    }
  }

  // ---------------------------------------------------------------- the auditor

  /** Nothing cut off a removed line or a heading looks like an added line. */
  predicate NoStrayRecord(e: Edit, at: char -> bool) {
    e.Change? ==> PlusTexts(Between(e, at)) == []
  }

  predicate NoStrayRecords(edits: seq<Edit>, at: char -> bool) {
    forall i :: 0 <= i < |edits| ==> NoStrayRecord(edits[i], at)
  }

  predicate AllNoStrayRecords(files: seq<FileDiff>, at: char -> bool) {
    forall i :: 0 <= i < |files| ==> NoStrayRecords(files[i].edits, at)
  }

  /** Where lines are added the auditor has come to the true name and number. */
  predicate AuditTrue(file: Option<string>, truth: Option<string>, edits: seq<Edit>, pos: nat, at: char -> bool)
    decreases |edits|
  {
    edits == []
    || match edits[0]
       case Keep(_) => AuditTrue(file, truth, edits[1..], pos + 1, at)
       case Change(_, _, added, _, _) =>
         var a := AuditBetween(file, edits[0], pos, at);
         && (added == [] || (HasPath(truth) && a.file == truth && a.newLine == pos + 1))
         && AuditTrue(a.file, truth, edits[1..], pos + |added|, at)
  }

  predicate AllAuditTrue(files: seq<FileDiff>, at: char -> bool) {
    forall i :: 0 <= i < |files| ==> AuditTrue(ReadPath(files[i]), files[i].path, files[i].edits, 0, at)
  }

  lemma AuditTrueStep(file: Option<string>, truth: Option<string>, edits: seq<Edit>, pos: nat, at: char -> bool)
    ensures AuditTrue(file, truth, [], pos, at) && NoStrayRecords([], at)
    ensures edits != [] ==>
              (NoStrayRecords(edits, at) <==> NoStrayRecord(edits[0], at) && NoStrayRecords(edits[1..], at))
    ensures edits != [] ==>
              (AuditTrue(file, truth, edits, pos, at) <==>
               match edits[0]
               case Keep(_) => AuditTrue(file, truth, edits[1..], pos + 1, at)
               case Change(_, _, added, _, _) =>
                 var a := AuditBetween(file, edits[0], pos, at);
                 && (added == [] || (HasPath(truth) && a.file == truth && a.newLine == pos + 1))
                 && AuditTrue(a.file, truth, edits[1..], pos + |added|, at))
  {
    hide AuditBetween, HasPath, NoStrayRecord;
    if edits != [] {
      assert forall i :: 0 <= i < |edits[1..]| ==> edits[1..][i] == edits[i + 1];
      assert forall i :: 0 < i < |edits| ==> edits[i] == edits[1..][i - 1];
    }
  }

  lemma NoneRecordedBetween(file: Option<string>, e: Edit, pos: nat, at: char -> bool)
    requires e.Change? && NoStrayRecord(e, at)
    ensures AuditBetween(file, e, pos, at).added == []
  {
    hide AuditRun, Between, PlusTexts;
    RecordsAtMostPlusLines(AuditState(file, Start(pos, |e.added|), []), Between(e, at));
  }

  /** A block of plain texts, as the auditor records it. */
  lemma BlockAttributed(file: Option<string>, texts: seq<string>, line: nat, truth: Option<string>, first: nat)
    requires AllPlain(texts)
    ensures |Lift(Attributed(BlockRecords(file, texts, line, false)))| <= |texts|
    ensures Lift(Attributed(BlockRecords(file, texts, line, false))) == Numbered(truth, texts, first) <==>
            texts == [] || (HasPath(truth) && file == truth && line == first)
  {
    var block := BlockRecords(file, texts, line, false);
    PlainBlock(file, texts, line, false);
    NumberedShape(file, texts, line);
    NumberedShape(truth, texts, first);
    BlockRight(file, texts, line, false, truth, first);
    AttributedAll(block);
    LiftLength(Attributed(block));
    hide BlockRecords, Numbered, Attributed, Lift, AllPlain, HasPath;
    if texts != [] {
      assert block[0].path == file;
      assert AllHavePath(block) <==> HasPath(file);
    }
  }

  lemma {:induction false} FileAuditRight(file: Option<string>, truth: Option<string>, edits: seq<Edit>, pos: nat,
                                          at: char -> bool)
    requires AllPlain(AddedOf(edits)) && NoStrayRecords(edits, at)
    ensures |FileAudit(file, edits, pos, at)| <= |AddedOf(edits)|
    ensures Lift(FileAudit(file, edits, pos, at)) == FileRecords(truth, edits, pos) <==>
            AuditTrue(file, truth, edits, pos, at)
    decreases |edits|
  {
    hide *;
    ScriptStep(file, edits, pos, at);
    RecordsStep(truth, edits, pos);
    AuditTrueStep(file, truth, edits, pos, at);
    AddedStep(edits);
    LiftCons(Added("", 0, ""), []);
    if edits != [] {
      var rest := edits[1..];
      match edits[0] {
        case Keep(_) =>
          assert AddedOf(edits) == AddedOf(rest);
          FileAuditRight(file, truth, rest, pos + 1, at);
        case Change(_, _, added, _, _) =>
          var a := AuditBetween(file, edits[0], pos, at);
          var block := Attributed(BlockRecords(a.file, added, a.newLine, false));
          var more := FileAudit(a.file, rest, pos + |added|, at);
          NoneRecordedBetween(file, edits[0], pos, at);
          AllPlainConcat(added, AddedOf(rest));
          PlainBlock(a.file, added, a.newLine, false);
          BlockAttributed(a.file, added, a.newLine, truth, pos + 1);
          LiftLength(block);
          LiftLength(more);
          NumberedShape(truth, added, pos + 1);
          FileAuditRight(a.file, truth, rest, pos + |added|, at);
          FileRecordTexts(truth, rest, pos + |added|);
          LiftConcat(block, more);
          assert FileAudit(file, edits, pos, at) == block + more;
          ConcatEqualBelow(Lift(block), Lift(more), Numbered(truth, added, pos + 1),
                           FileRecords(truth, rest, pos + |added|));
      }
    }
  }

  lemma AllAuditTrueStep(files: seq<FileDiff>, at: char -> bool)
    ensures AllAuditTrue([], at)
    ensures files != [] ==>
              (AllAuditTrue(files, at) <==>
               AuditTrue(ReadPath(files[0]), files[0].path, files[0].edits, 0, at) && AllAuditTrue(files[1..], at))
    ensures files != [] ==>
              (AllNoStrayRecords(files, at) <==>
               NoStrayRecords(files[0].edits, at) && AllNoStrayRecords(files[1..], at))
  {
    hide AuditTrue, NoStrayRecords, ReadPath;
    if files != [] {
      assert forall i :: 0 <= i < |files[1..]| ==> files[1..][i] == files[i + 1];
      assert forall i :: 0 < i < |files| ==> files[i] == files[1..][i - 1];
    }
  }

  lemma {:induction false} DiffAuditRight(files: seq<FileDiff>, at: char -> bool)
    requires AllPlain(AllAdded(files)) && AllNoStrayRecords(files, at)
    ensures |DiffAudit(files, at)| <= |AllAdded(files)|
    ensures Lift(DiffAudit(files, at)) == Records(files) <==> AllAuditTrue(files, at)
  {
    hide *;
    DiffStep(files, at);
    AllAuditTrueStep(files, at);
    LiftCons(Added("", 0, ""), []);
    if files != [] {
      var f, rest := files[0], files[1..];
      var first, more := FileAudit(ReadPath(f), f.edits, 0, at), DiffAudit(rest, at);
      AllPlainConcat(AddedOf(f.edits), AllAdded(rest));
      FileAuditRight(ReadPath(f), f.path, f.edits, 0, at);
      FileRecordTexts(f.path, f.edits, 0);
      DiffAuditRight(rest, at);
      RecordTexts(rest);
      LiftConcat(first, more);
      LiftLength(first);
      LiftLength(more);
      ConcatEqualBelow(Lift(first), Lift(more), FileRecords(f.path, f.edits, 0), Records(rest));
    }
  }

  /** The auditor on any diff in which nothing that was cut off looks like an added line: right if and only if
      the added texts are plain and hold no boundary, and wherever lines are added it has come to the true,
      non-empty name and to the true number. */
  lemma AuditReadsExactly(files: seq<FileDiff>, at: char -> bool)
    requires Boundary(at) && AllValid(files) && CleanHeads(files, at) && AllNoStrayRecords(files, at)
    ensures Lift(AuditRun(AUDIT_START, CutLines(Render(files), at)).added) == Records(files) <==>
            AllPlain(AllAdded(files)) && AllLack(AllAdded(files), at) && AllAuditTrue(files, at)
  {
    var lines, texts := CutLines(Render(files), at), AllAdded(files);
    var added := AuditRun(AUDIT_START, lines).added;
    RecordTexts(files);
    ReadTextsLack(files, at);
    ReadTextsPlain(lines);
    LiftTexts(added);
    hide AuditRun, ScanRun, CutLines, Render, Records, AllAdded, Boundary, Lacks, Plain;
    hide AllAuditTrue, DiffScan, DiffAudit, Lift, AllNoStrayRecords;
    if Lift(added) == Records(files) {
      forall k | 0 <= k < |texts|
        ensures Plain(texts[k]) && Lacks(texts[k], at)
      {
        assert added[k] in added;
        assert Lift(added)[k].text == added[k].text == texts[k];
      }
    }
    if AllPlain(texts) && AllLack(texts, at) {
      DiffRead(AUDIT_START, SCAN_START, files, at);
      Beginnings();
      assert added == DiffAudit(files, at);
      DiffAuditRight(files, at);
    }
  }
}
