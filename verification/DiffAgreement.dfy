/** When the two diff parsers return the same sequence, for every edit script and whatever was added. */
module DiffAgreement {
  import opened Text
  import opened DiffParsers
  import opened DiffCut
  import opened DiffRender
  import opened DiffReading
  import opened DiffTheorems

  /** The scanner has counted `ahead` lines more when the block begins: it is back in step at a plain text
      only if that is none, and none of the texts before it is one that only the scanner counts. */
  predicate InStep(texts: seq<string>, ahead: nat) {
    forall i :: 0 <= i < |texts| && Plain(texts[i]) ==> ahead == 0 && NoneOnlyCounted(texts[..i])
  }

  predicate NoneOnlyCounted(texts: seq<string>) {
    forall j :: 0 <= j < |texts| ==> !OnlyCounted(texts[j])
  }

  lemma InStepCons(t: string, more: seq<string>, ahead: nat)
    ensures InStep([], ahead)
    ensures InStep([t] + more, ahead) <==>
            if Plain(t) then ahead == 0 && InStep(more, ahead)
            else InStep(more, ahead + if OnlyCounted(t) then 1 else 0)
  {
    var texts := [t] + more;
    assert texts[0] == t && texts[..0] == [];
    assert Plain(t) ==> !OnlyCounted(t);
    hide Plain, OnlyCounted;
    forall i | 0 <= i < |more|
      ensures texts[i + 1] == more[i]
      ensures NoneOnlyCounted(texts[..i + 1]) <==> !OnlyCounted(t) && NoneOnlyCounted(more[..i])
    {
      NoneOnlyCountedCons(t, more[..i]);
      assert texts[..i + 1] == [t] + more[..i];
    }
    hide NoneOnlyCounted;
    if InStep(texts, ahead) {
      forall i | 0 <= i < |more| && Plain(more[i])
        ensures ahead == 0 && !OnlyCounted(t) && NoneOnlyCounted(more[..i])
      {
        assert Plain(texts[i + 1]);
      }
    }
    if Plain(t) && InStep(texts, ahead) {
      assert Plain(texts[0]);
    }
    if (if Plain(t) then ahead == 0 && InStep(more, ahead)
        else InStep(more, ahead + if OnlyCounted(t) then 1 else 0)) {
      assert NoneOnlyCounted([]) by { NothingOnlyCounted(); }
      forall i | 0 <= i < |texts| && Plain(texts[i])
        ensures ahead == 0 && NoneOnlyCounted(texts[..i])
      {
        if i > 0 {
          assert texts[i] == more[i - 1] && texts[..i] == texts[..(i - 1) + 1];
        }
      }
    }
  }

  lemma NothingOnlyCounted()
    ensures NoneOnlyCounted([])
  {
  }

  lemma NoneOnlyCountedCons(t: string, more: seq<string>)
    ensures NoneOnlyCounted([t] + more) <==> !OnlyCounted(t) && NoneOnlyCounted(more)
  {
    hide OnlyCounted;
    var texts := [t] + more;
    assert texts[0] == t;
    assert forall j :: 0 <= j < |more| ==> texts[j + 1] == more[j];
    if NoneOnlyCounted(texts) {
      assert forall j :: 0 <= j < |more| ==> more[j] == texts[j + 1];
    }
  }

  /** Both parsers read one block alike exactly when they are in step at every plain text. */
  lemma {:induction false} BlocksAgree(path: Option<string>, texts: seq<string>, line: nat, ahead: nat)
    ensures BlockRecords(path, texts, line, false) == BlockRecords(path, texts, line + ahead, true) <==>
            InStep(texts, ahead)
    decreases |texts|
  {
    hide Plain, OnlyCounted, PathAfter, BlockRecords, InStep;
    if texts == [] {
      BlockStep(path, "", [], line, false);
      BlockStep(path, "", [], line + ahead, true);
      InStepCons("", [], ahead);
    } else {
      var t, more := texts[0], texts[1..];
      assert texts == [t] + more;
      BlockStep(path, t, more, line, false);
      BlockStep(path, t, more, line + ahead, true);
      InStepCons(t, more, ahead);
      if Plain(t) {
        BlocksAgree(path, more, line + 1, ahead);
        ConcatEqual([Yielded(path, line, t)], BlockRecords(path, more, line + 1, false),
                    [Yielded(path, line + ahead, t)], BlockRecords(path, more, line + ahead + 1, true));
      } else {
        BlocksAgree(PathAfter(path, t), more, line, ahead + if OnlyCounted(t) then 1 else 0);
      }
    }
  }

  predicate EditInStep(e: Edit, at: char -> bool) {
    e.Change? ==> InStep(e.added, Strays(Between(e, at)))
  }

  predicate EditsInStep(edits: seq<Edit>, at: char -> bool) {
    forall i :: 0 <= i < |edits| ==> EditInStep(edits[i], at)
  }

  predicate AllInStep(files: seq<FileDiff>, at: char -> bool) {
    forall i :: 0 <= i < |files| ==> EditsInStep(files[i].edits, at)
  }

  lemma EditsInStepStep(edits: seq<Edit>, at: char -> bool)
    ensures EditsInStep([], at)
    ensures edits != [] ==> (EditsInStep(edits, at) <==> EditInStep(edits[0], at) && EditsInStep(edits[1..], at))
  {
    hide EditInStep;
    if edits != [] {
      assert forall i :: 0 <= i < |edits[1..]| ==> edits[1..][i] == edits[i + 1];
      assert forall i :: 0 < i < |edits| ==> edits[i] == edits[1..][i - 1];
    }
  }

  /** `a` is how the auditor's reading cuts the lines, `s` how the scanner's does. */
  lemma {:induction false} FilesAgree(path: Option<string>, edits: seq<Edit>, pos: nat,
                                      a: char -> bool, s: char -> bool)
    ensures FileReads(path, edits, pos, a, false) == FileReads(path, edits, pos, s, true) <==> EditsInStep(edits, s)
    decreases |edits|
  {
    ReadsStep(path, edits, pos, a, false);
    ReadsStep(path, edits, pos, s, true);
    EditsInStepStep(edits, s);
    hide FileReads, BlockRecords, Strays, Between, PathThrough, EditsInStep, InStep;
    if edits != [] {
      var e, rest := edits[0], edits[1..];
      match e {
        case Keep(_) =>
          FilesAgree(path, rest, pos + 1, a, s);
        case Change(_, _, added, _, _) =>
          var ahead := Strays(Between(e, s));
          BlocksAgree(path, added, pos + 1, ahead);
          FilesAgree(PathThrough(path, added), rest, pos + |added|, a, s);
          BlockSize(path, added, pos + 1, false);
          BlockSize(path, added, pos + 1 + ahead, true);
          ConcatEqual(BlockRecords(path, added, pos + 1, false),
                      FileReads(PathThrough(path, added), rest, pos + |added|, a, false),
                      BlockRecords(path, added, pos + 1 + ahead, true),
                      FileReads(PathThrough(path, added), rest, pos + |added|, s, true));
      }
    }
  }

  lemma AllInStepStep(files: seq<FileDiff>, at: char -> bool)
    ensures AllInStep([], at)
    ensures files != [] ==> (AllInStep(files, at) <==> EditsInStep(files[0].edits, at) && AllInStep(files[1..], at))
  {
    hide EditsInStep;
    if files != [] {
      assert forall i :: 0 <= i < |files[1..]| ==> files[1..][i] == files[i + 1];
      assert forall i :: 0 < i < |files| ==> files[i] == files[1..][i - 1];
    }
  }

  lemma {:induction false} DiffsAgree(files: seq<FileDiff>, a: char -> bool, s: char -> bool)
    ensures Reads(files, a, false) == Reads(files, s, true) <==> AllInStep(files, s)
  {
    AllInStepStep(files, s);
    hide FileReads, ReadPath, EditsInStep, AllInStep;
    if files != [] {
      var f, path := files[0], ReadPath(files[0]);
      FilesAgree(path, f.edits, 0, a, s);
      DiffsAgree(files[1..], a, s);
      FileReadsSize(path, f.edits, 0, a, false);
      FileReadsSize(path, f.edits, 0, s, true);
      ConcatEqual(FileReads(path, f.edits, 0, a, false), Reads(files[1..], a, false),
                  FileReads(path, f.edits, 0, s, true), Reads(files[1..], s, true));
    }
  }

  // ---------------------------------------------------------------- attribution of what is read

  /** A non-empty path is current at every plain text, forged names included. */
  predicate Attributable(path: Option<string>, texts: seq<string>) {
    forall i :: 0 <= i < |texts| && Plain(texts[i]) ==> HasPath(PathThrough(path, texts[..i]))
  }

  predicate AllAttributable(files: seq<FileDiff>) {
    forall i :: 0 <= i < |files| ==> Attributable(ReadPath(files[i]), AddedOf(files[i].edits))
  }

  lemma {:induction false} PathThroughConcat(path: Option<string>, a: seq<string>, b: seq<string>)
    ensures PathThrough(path, a + b) == PathThrough(PathThrough(path, a), b)
    decreases |a|
  {
    hide PathAfter;
    if a == [] {
      assert a + b == b;
    } else {
      assert (a + b)[1..] == a[1..] + b;
      PathThroughConcat(PathAfter(path, a[0]), a[1..], b);
    }
  }

  lemma AttributableConcat(path: Option<string>, a: seq<string>, b: seq<string>)
    ensures Attributable(path, a + b) <==> Attributable(path, a) && Attributable(PathThrough(path, a), b)
  {
    hide Plain, HasPath, PathThrough;
    var texts := a + b;
    forall i | 0 <= i < |a|
      ensures texts[i] == a[i] && texts[..i] == a[..i]
    {
    }
    forall i | 0 <= i < |b|
      ensures texts[|a| + i] == b[i]
      ensures PathThrough(path, texts[..|a| + i]) == PathThrough(PathThrough(path, a), b[..i])
    {
      assert texts[..|a| + i] == a + b[..i];
      PathThroughConcat(path, a, b[..i]);
    }
    if Attributable(path, a) && Attributable(PathThrough(path, a), b) {
      forall i | 0 <= i < |texts| && Plain(texts[i])
        ensures HasPath(PathThrough(path, texts[..i]))
      {
        if i >= |a| {
          assert texts[|a| + (i - |a|)] == b[i - |a|];
        }
      }
    }
    if Attributable(path, texts) {
      assert forall i :: 0 <= i < |b| && Plain(b[i]) ==> Plain(texts[|a| + i]);
    }
  }

  lemma AttributableOne(path: Option<string>, t: string)
    ensures Attributable(path, [t]) <==> (Plain(t) ==> HasPath(path))
    ensures Attributable(path, [])
    ensures PathThrough(path, [t]) == PathAfter(path, t)
  {
    hide Plain, HasPath, PathAfter;
    assert [t][0] == t && [t][..0] == [] && [t][1..] == [];
  }

  lemma {:induction false} BlockAttributable(path: Option<string>, texts: seq<string>, line: nat, scan: bool)
    ensures AllHavePath(BlockRecords(path, texts, line, scan)) <==> Attributable(path, texts)
    decreases |texts|
  {
    hide Plain, OnlyCounted, PathAfter, BlockRecords, Attributable, AllHavePath, HasPath, PathThrough;
    if texts == [] {
      BlockStep(path, "", [], line, scan);
      AttributableOne(path, "");
      NoneHavePath();
    } else {
      var t, more := texts[0], texts[1..];
      assert texts == [t] + more;
      BlockStep(path, t, more, line, scan);
      AttributableOne(path, t);
      AttributableConcat(path, [t], more);
      if Plain(t) {
        BlockAttributable(path, more, line + 1, scan);
        AllHavePathCons(Yielded(path, line, t), BlockRecords(path, more, line + 1, scan));
      } else {
        BlockAttributable(PathAfter(path, t), more, line + if scan && OnlyCounted(t) then 1 else 0, scan);
      }
    }
  }

  lemma NoneHavePath()
    ensures AllHavePath([])
  {
  }

  lemma {:induction false} FileAttributable(path: Option<string>, edits: seq<Edit>, pos: nat,
                                            at: char -> bool, scan: bool)
    ensures AllHavePath(FileReads(path, edits, pos, at, scan)) <==> Attributable(path, AddedOf(edits))
    decreases |edits|
  {
    ReadsStep(path, edits, pos, at, scan);
    AddedStep(edits);
    hide FileReads, BlockRecords, Strays, Between, PathThrough, Attributable, AllHavePath, AddedOf;
    if edits == [] {
      AttributableOne(path, "");
      NoneHavePath();
    } else {
      var e, rest := edits[0], edits[1..];
      match e {
        case Keep(_) =>
          assert AddedOf(edits) == AddedOf(rest);
          FileAttributable(path, rest, pos + 1, at, scan);
        case Change(_, _, added, _, _) =>
          var first := pos + 1 + if scan then Strays(Between(e, at)) else 0;
          BlockAttributable(path, added, first, scan);
          FileAttributable(PathThrough(path, added), rest, pos + |added|, at, scan);
          AttributableConcat(path, added, AddedOf(rest));
          AllHavePathConcat(BlockRecords(path, added, first, scan),
                            FileReads(PathThrough(path, added), rest, pos + |added|, at, scan));
      }
    }
  }

  lemma AllAttributableStep(files: seq<FileDiff>)
    ensures AllAttributable([])
    ensures files != [] ==>
              (AllAttributable(files) <==>
               Attributable(ReadPath(files[0]), AddedOf(files[0].edits)) && AllAttributable(files[1..]))
  {
    hide Attributable, ReadPath, AddedOf;
    if files != [] {
      assert forall i :: 0 <= i < |files[1..]| ==> files[1..][i] == files[i + 1];
      assert forall i :: 0 < i < |files| ==> files[i] == files[1..][i - 1];
    }
  }

  lemma {:induction false} DiffAttributable(files: seq<FileDiff>, at: char -> bool, scan: bool)
    ensures AllHavePath(Reads(files, at, scan)) <==> AllAttributable(files)
  {
    AllAttributableStep(files);
    hide FileReads, ReadPath, Attributable, AllAttributable, AllHavePath, AddedOf;
    if files == [] {
      NoneHavePath();
    } else {
      var f, path := files[0], ReadPath(files[0]);
      FileAttributable(path, f.edits, 0, at, scan);
      DiffAttributable(files[1..], at, scan);
      AllHavePathConcat(FileReads(path, f.edits, 0, at, scan), Reads(files[1..], at, scan));
    }
  }

  // ---------------------------------------------------------------- agreement

  /** Two readings of one diff, for all added texts without a boundary of either: the parsers agree if and
      only if they are in step and on a path at every plain added text. */
  lemma ReadersAgree(files: seq<FileDiff>, a: char -> bool, s: char -> bool)
    requires Boundary(a) && AllQuiet(files, a) && AllLack(AllAdded(files), a)
    requires Boundary(s) && AllQuiet(files, s) && AllLack(AllAdded(files), s)
    ensures Lift(AuditRun(AUDIT_START, CutLines(Render(files), a)).added)
            == ScanRun(SCAN_START, CutLines(Render(files), s)).out
            <==> AllInStep(files, s) && AllAttributable(files)
  {
    hide *;
    var got, seen := Reads(files, a, false), Reads(files, s, true);
    Beginnings();
    QuietDiffRead(AUDIT_START, SCAN_START, files, a);
    QuietDiffRead(AUDIT_START, SCAN_START, files, s);
    assert AuditRun(AUDIT_START, CutLines(Render(files), a)).added == Attributed(got);
    assert ScanRun(SCAN_START, CutLines(Render(files), s)).out == seen;
    DiffsAgree(files, a, s);
    DiffAttributable(files, a, false);
    AttributedAll(got);
    LiftLength(Attributed(got));
    ReadsSize(files, a, false);
    ReadsSize(files, s, true);
  }

  /** On the printed lines, whatever they add. */
  lemma ParsersAgree(files: seq<FileDiff>)
    requires AllValid(files)
    ensures Lift(AuditRun(AUDIT_START, Render(files)).added) == ScanRun(SCAN_START, Render(files)).out <==>
            AllInStep(files, Never) && AllAttributable(files)
  {
    hide *;
    QuietUncut(files);
    CutLinesNever(Render(files));
    ReadersAgree(files, Never, Never);
  }

  /** Lines are added only under names that are there and not quoted. */
  predicate AllShown(files: seq<FileDiff>) {
    forall i :: 0 <= i < |files| ==>
      (HasPath(files[i].path) && !files[i].quoted) || AddedOf(files[i].edits) == []
  }

  /** For plain added texts being in step is the absence of a marker before them, and a path is current
      where the header gives one. */
  lemma PlainInStep(files: seq<FileDiff>)
    requires AllPlain(AllAdded(files))
    ensures AllInStep(files, Never) <==> NoFileSlips(files)
    ensures AllAttributable(files) <==> AllShown(files)
  {
    NamedAsRead(files);
    PlainInStepFiles(files);
  }

  lemma {:induction false} PlainInStepFiles(files: seq<FileDiff>)
    requires AllPlain(AllAdded(files))
    ensures AllInStep(files, Never) <==> NoFileSlips(files)
  {
    hide InStep, AddedOf, AllPlain;
    AllInStepStep(files, Never);
    hide AllInStep, EditsInStep, NoSlip;
    if files != [] {
      AllPlainConcat(AddedOf(files[0].edits), AllAdded(files[1..]));
      PlainInStepEdits(files[0].edits);
      PlainInStepFiles(files[1..]);
      assert forall i :: 0 <= i < |files[1..]| ==> files[1..][i] == files[i + 1];
      assert forall i :: 0 < i < |files| ==> files[i] == files[1..][i - 1];
    }
  }

  lemma {:induction false} PlainInStepEdits(edits: seq<Edit>)
    requires AllPlain(AddedOf(edits))
    ensures EditsInStep(edits, Never) <==> NoSlip(edits)
  {
    EditsInStepStep(edits, Never);
    AddedStep(edits);
    hide EditsInStep, AllPlain, AddedOf, InStep, Between, Strays;
    if edits != [] {
      var e := edits[0];
      if e.Change? {
        AllPlainConcat(e.added, AddedOf(edits[1..]));
        BetweenUncut(e);
        PlainInStepBlock(e.added, Strays(Between(e, Never)));
      } else {
        assert AddedOf(edits) == AddedOf(edits[1..]);
      }
      PlainInStepEdits(edits[1..]);
      assert forall i :: 0 <= i < |edits[1..]| ==> edits[1..][i] == edits[i + 1];
      assert forall i :: 0 < i < |edits| ==> edits[i] == edits[1..][i - 1];
    }
  }

  lemma PlainInStepBlock(texts: seq<string>, ahead: nat)
    requires AllPlain(texts)
    ensures InStep(texts, ahead) <==> texts == [] || ahead == 0
  {
    assert forall i :: 0 <= i < |texts| && Plain(texts[i]) ==> !OnlyCounted(texts[i]);
    hide Plain, OnlyCounted;
    if texts != [] {
      assert Plain(texts[0]);
    }
  }

  lemma {:induction false} NamedAsRead(files: seq<FileDiff>)
    requires AllPlain(AllAdded(files))
    ensures AllAttributable(files) <==> AllShown(files)
  {
    hide AllPlain, AddedOf, HasPath, ReadPath;
    AllAttributableStep(files);
    hide AllAttributable, Attributable;
    if files != [] {
      var f, rest := files[0], files[1..];
      AllPlainConcat(AddedOf(f.edits), AllAdded(rest));
      NamedAsRead(rest);
      ReadPathRight(f);
      PlainAttributable(ReadPath(f), AddedOf(f.edits));
      assert forall i :: 0 <= i < |rest| ==> rest[i] == files[i + 1];
      assert forall i :: 0 < i < |files| ==> files[i] == rest[i - 1];
    }
  }

  lemma PlainAttributable(path: Option<string>, texts: seq<string>)
    requires AllPlain(texts)
    ensures Attributable(path, texts) <==> HasPath(path) || texts == []
  {
    hide Plain, HasPath, PathThrough;
    forall i | 0 <= i < |texts|
      ensures PathThrough(path, texts[..i]) == path
    {
      PlainBlock(path, texts[..i], 0, false);
    }
    if texts != [] {
      assert texts[..0] == [] && Plain(texts[0]);
    }
  }

  // ---------------------------------------------------------------- agreement on any text

  /** What the scanner makes of the pieces of one of the auditor's lines. */
  function ScanPieces(sc: ScanState, line: string): ScanState {
    ScanRun(sc, CutAt(line, IsBreak))
  }

  function ScanAll(sc: ScanState, lines: seq<string>): ScanState
    decreases |lines|
  {
    if lines == [] then sc else ScanAll(ScanPieces(sc, lines[0]), lines[1..])
  }

  /** The scanner reads nothing there, or reads the line whole, and both parsers stand at the same non-empty
      path and the same number. */
  predicate LineAgrees(st: AuditState, sc: ScanState, line: string) {
    || PlusTexts(CutAt(line, IsBreak)) == []
    || (PlusLine(line) && Lacks(line, IsBreak)
        && HasPath(st.file) && st.file == sc.path && st.newLine == sc.newNo)
  }

  predicate LinesAgree(st: AuditState, sc: ScanState, lines: seq<string>)
    decreases |lines|
  {
    lines == []
    || (LineAgrees(st, sc, lines[0]) && LinesAgree(AuditStep(st, lines[0]), ScanPieces(sc, lines[0]), lines[1..]))
  }

  /** The records made of one line. */
  function AuditOf(st: AuditState, line: string): seq<Added> {
    AuditStep(AuditState(st.file, st.newLine, []), line).added
  }

  function ScanOf(sc: ScanState, line: string): seq<Yielded> {
    ScanPieces(ScanState(sc.path, sc.newNo, []), line).out
  }

  lemma AuditOfIs(st: AuditState, line: string)
    ensures AuditOf(st, line) ==
            if PlusLine(line) && HasPath(st.file) then [Added(st.file.value, st.newLine, line[1..])] else []
  {
    hide HunkStart;
    HunkOpens(line);
    if PlusLine(line) {
      assert line[0] == '+';
      assert line == ['+'] + line[1..];
      PlusLineOpens(line[1..]);
      assert !("diff --git" <= line) && !("+++ " <= line) && !("+++ b/" <= line);
    }
  }

  lemma ScanOfTexts(sc: ScanState, line: string)
    ensures |ScanOf(sc, line)| == |PlusTexts(CutAt(line, IsBreak))|
    ensures forall k :: 0 <= k < |ScanOf(sc, line)| ==> ScanOf(sc, line)[k].text == PlusTexts(CutAt(line, IsBreak))[k]
  {
    var bare := ScanState(sc.path, sc.newNo, []);
    ScannedTexts(bare, CutAt(line, IsBreak));
    TextsAt(ScanOf(sc, line));
    assert Texts([]) == [];
    hide ScanRun, PlusTexts, CutAt;
  }

  /** The first piece of a record-shaped line is one itself. */
  lemma FirstPieceIsPlus(line: string)
    requires PlusLine(line)
    ensures PlusLine(CutAt(line, IsBreak)[0]) && |PlusTexts(CutAt(line, IsBreak))| >= 1
  {
    var t := line[1..];
    assert line == "+" + t && line[0] == '+';
    assert Lacks("+", IsBreak);
    CutAtPrefix("+", t, IsBreak);
    var head, first := CutAt(t, IsBreak)[0], CutAt(line, IsBreak)[0];
    PieceIsPrefix(t, IsBreak);
    assert first == ['+'] + head;
    assert line == ['+'] + t;
    PlusLineOpens(head);
    PlusLineOpens(t);
    PrefixPlain(head, t);
  }

  lemma PrefixPlain(head: string, text: string)
    requires head <= text
    ensures !Plain(head) ==> !Plain(text)
  {
    if !Plain(head) {
      assert text[..2] == head[..2] == "++";
    }
  }

  lemma {:induction false} PieceIsPrefix(s: string, at: char -> bool)
    ensures CutAt(s, at)[0] <= s
  {
    if s != "" && !at(s[0]) {
      PieceIsPrefix(s[1..], at);
      var head := CutAt(s[1..], at)[0];
      assert s == [s[0]] + s[1..];
      assert ([s[0]] + head) == s[..1 + |head|];
    }
  }

  /** One line is read alike exactly in that case, and the auditor never reads more of it. */
  lemma LineRead(st: AuditState, sc: ScanState, line: string)
    ensures |Lift(AuditOf(st, line))| <= |ScanOf(sc, line)|
    ensures Lift(AuditOf(st, line)) == ScanOf(sc, line) <==> LineAgrees(st, sc, line)
  {
    var texts := PlusTexts(CutAt(line, IsBreak));
    AuditOfIs(st, line);
    ScanOfTexts(sc, line);
    LiftLength(AuditOf(st, line));
    if PlusLine(line) {
      FirstPieceIsPlus(line);
    }
    if Lacks(line, IsBreak) {
      WholeLineRead(sc, line);
    } else if PlusLine(line) {
      hide AuditOf, ScanOf, PlusTexts, HasPath;
      LiftTexts(AuditOf(st, line));
      CutTextDiffers(line, texts[0]);
    }
  }

  /** A line without a boundary is read whole. */
  lemma WholeLineRead(sc: ScanState, line: string)
    requires Lacks(line, IsBreak)
    ensures ScanOf(sc, line) == if PlusLine(line) then [Yielded(sc.path, sc.newNo, line[1..])] else []
    ensures PlusTexts(CutAt(line, IsBreak)) == if PlusLine(line) then [line[1..]] else []
  {
    var bare := ScanState(sc.path, sc.newNo, []);
    CutAtLacks(line, IsBreak);
    PlusTextsStep([line]);
    NoPlusTexts();
    RunCons(AUDIT_START, bare, line, []);
    RunNone(AUDIT_START, ScanStep(bare, line));
    assert [line] + [] == [line] && [line][1..] == [];
    hide ScanRun, PlusNumber, PlusTexts, CutAt;
    if PlusLine(line) {
      assert line[0] == '+';
      assert line == ['+'] + line[1..];
      PlusLineOpens(line[1..]);
      assert !("+++ " <= line) && !("+++ b/" <= line);
    }
  }

  lemma CutTextDiffers(line: string, text: string)
    requires PlusLine(line) && !Lacks(line, IsBreak) && text in PlusTexts(CutAt(line, IsBreak))
    ensures text != line[1..]
  {
    assert line[0] == '+';
    PiecesLack(line, IsBreak);
    PlusTextsLack(CutAt(line, IsBreak), IsBreak);
    hide CutAt, PlusTexts, IsBreak;
    var i :| 0 <= i < |line| && IsBreak(line[i]);
    assert i > 0 by { assert !IsBreak('+') by { PlusIsNoBoundary(IsBreak); } }
    assert IsBreak(line[1..][i - 1]);
  }

  lemma {:induction false} ScanAllFrame(sc: ScanState, lines: seq<string>)
    ensures var r := ScanAll(ScanState(sc.path, sc.newNo, []), lines);
            ScanAll(sc, lines) == ScanState(r.path, r.newNo, sc.out + r.out)
    decreases |lines|
  {
    hide ScanPieces;
    if lines != [] {
      var bare := ScanPieces(ScanState(sc.path, sc.newNo, []), lines[0]);
      PiecesFrame(sc, lines[0]);
      ScanAllFrame(ScanPieces(sc, lines[0]), lines[1..]);
      ScanAllFrame(bare, lines[1..]);
    }
  }

  lemma PiecesFrame(sc: ScanState, line: string)
    ensures var r := ScanPieces(ScanState(sc.path, sc.newNo, []), line);
            ScanPieces(sc, line) == ScanState(r.path, r.newNo, sc.out + r.out)
  {
    ScanFrame(sc, CutAt(line, IsBreak));
    hide ScanRun, CutAt;
  }

  /** Both parsers read the rest of a text alike if and only if they do so line by line: no record can make
      up for another. */
  lemma {:induction false} LinesReadAlike(st: AuditState, sc: ScanState, lines: seq<string>)
    ensures var a := AuditRun(AuditState(st.file, st.newLine, []), lines).added;
            var s := ScanAll(ScanState(sc.path, sc.newNo, []), lines).out;
            && |a| <= |s|
            && (Lift(a) == s <==> LinesAgree(st, sc, lines))
    decreases |lines|
  {
    hide AuditStep, ScanPieces, LineAgrees, Lift;
    LiftCons(Added("", 0, ""), []);
    if lines != [] {
      var line, rest := lines[0], lines[1..];
      var st1, sc1 := AuditStep(st, line), ScanPieces(sc, line);
      var a := AuditRun(AuditState(st1.file, st1.newLine, []), rest);
      var s := ScanAll(ScanState(sc1.path, sc1.newNo, []), rest);
      AuditStepFrame(st, line);
      PiecesFrame(sc, line);
      AuditFrame(AuditStep(AuditState(st.file, st.newLine, []), line), rest);
      ScanAllFrame(ScanPieces(ScanState(sc.path, sc.newNo, []), line), rest);
      LineRead(st, sc, line);
      LinesReadAlike(st1, sc1, rest);
      LiftConcat(AuditOf(st, line), a.added);
      LiftLength(AuditOf(st, line));
      LiftLength(a.added);
      hide AuditRun, ScanAll;
      ConcatEqualBelow(Lift(AuditOf(st, line)), Lift(a.added), ScanOf(sc, line), s.out);
    }
  }
}
