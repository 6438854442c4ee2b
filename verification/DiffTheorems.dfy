/** The exact conditions under which what the two parsers return for a zero-context diff is one record per
    added line, under its file's name and at its true position. */
module DiffTheorems {
  import opened Text
  import opened DiffParsers
  import opened DiffCut
  import opened DiffRender
  import opened DiffReading

  // ---------------------------------------------------------------- how many records

  function PlainCount(texts: seq<string>): nat {
    if texts == [] then 0 else (if Plain(texts[0]) then 1 else 0) + PlainCount(texts[1..])
  }

  lemma {:induction false} PlainCountConcat(a: seq<string>, b: seq<string>)
    ensures PlainCount(a + b) == PlainCount(a) + PlainCount(b)
  {
    if a == [] {
      assert a + b == b;
    } else {
      PlainCountConcat(a[1..], b);
      assert (a + b)[1..] == a[1..] + b;
    }
  }

  lemma {:induction false} PlainCountFull(texts: seq<string>)
    ensures PlainCount(texts) <= |texts|
    ensures PlainCount(texts) == |texts| <==> AllPlain(texts)
  {
    if texts != [] {
      hide Plain;
      PlainCountFull(texts[1..]);
      AllPlainConcat([texts[0]], texts[1..]);
      assert texts == [texts[0]] + texts[1..];
      assert AllPlain([texts[0]]) <==> Plain(texts[0]) by {
        assert [texts[0]][0] == texts[0];
      }
    }
  }

  lemma {:induction false} BlockSize(path: Option<string>, texts: seq<string>, line: nat, scan: bool)
    ensures |BlockRecords(path, texts, line, scan)| == PlainCount(texts)
    decreases |texts|
  {
    hide Plain, PathAfter, OnlyCounted;
    if texts != [] {
      var t := texts[0];
      if Plain(t) {
        BlockSize(path, texts[1..], line + 1, scan);
      } else {
        BlockSize(PathAfter(path, t), texts[1..], line + if scan && OnlyCounted(t) then 1 else 0, scan);
      }
    }
  }

  /** Both parsers return as many records as there are plain added texts. */
  lemma {:induction false} FileReadsSize(path: Option<string>, edits: seq<Edit>, pos: nat, at: char -> bool, scan: bool)
    ensures |FileReads(path, edits, pos, at, scan)| == PlainCount(AddedOf(edits))
    decreases |edits|
  {
    ReadsStep(path, edits, pos, at, scan);
    hide FileReads, BlockRecords, PlainCount, Strays, Between, PathThrough;
    if edits == [] {
      PlainCountFull([]);
    } else {
      match edits[0] {
        case Keep(_) =>
          assert AddedOf(edits) == AddedOf(edits[1..]);
          FileReadsSize(path, edits[1..], pos + 1, at, scan);
        case Change(_, _, added, _, _) =>
          BlockSize(path, added, pos + 1 + if scan then Strays(Between(edits[0], at)) else 0, scan);
          FileReadsSize(PathThrough(path, added), edits[1..], pos + |added|, at, scan);
          PlainCountConcat(added, AddedOf(edits[1..]));
      }
    }
  }

  lemma {:induction false} ReadsSize(files: seq<FileDiff>, at: char -> bool, scan: bool)
    ensures |Reads(files, at, scan)| == PlainCount(AllAdded(files))
  {
    hide FileReads, AddedOf, PlainCount, ReadPath;
    if files == [] {
      PlainCountFull([]);
    } else {
      FileReadsSize(ReadPath(files[0]), files[0].edits, 0, at, scan);
      ReadsSize(files[1..], at, scan);
      PlainCountConcat(AddedOf(files[0].edits), AllAdded(files[1..]));
    }
  }

  lemma {:induction false} NumberedShape(path: Option<string>, texts: seq<string>, line: nat)
    ensures |Numbered(path, texts, line)| == |texts|
    ensures forall k :: 0 <= k < |texts| ==> Numbered(path, texts, line)[k] == Yielded(path, line + k, texts[k])
  {
    if texts != [] {
      NumberedShape(path, texts[1..], line + 1);
    }
  }

  /** How the records of a script begin. */
  lemma RecordsStep(path: Option<string>, edits: seq<Edit>, pos: nat)
    ensures FileRecords(path, [], pos) == []
    ensures edits != [] ==>
              FileRecords(path, edits, pos) ==
              match edits[0]
              case Keep(_) => FileRecords(path, edits[1..], pos + 1)
              case Change(_, _, added, _, _) =>
                Numbered(path, added, pos + 1) + FileRecords(path, edits[1..], pos + |added|)
  {
    hide Numbered;
  }

  /** The true records carry the added texts in order, under the path. */
  lemma {:induction false} FileRecordTexts(path: Option<string>, edits: seq<Edit>, pos: nat)
    ensures var recs := FileRecords(path, edits, pos);
            && |recs| == |AddedOf(edits)|
            && forall k :: 0 <= k < |recs| ==> recs[k].text == AddedOf(edits)[k] && recs[k].path == path
    decreases |edits|
  {
    RecordsStep(path, edits, pos);
    AddedStep(edits);
    hide FileRecords, Numbered, AddedOf;
    if edits != [] {
      match edits[0] {
        case Keep(_) =>
          FileRecordTexts(path, edits[1..], pos + 1);
        case Change(_, _, added, _, _) =>
          NumberedShape(path, added, pos + 1);
          FileRecordTexts(path, edits[1..], pos + |added|);
      }
    }
  }

  lemma {:induction false} RecordTexts(files: seq<FileDiff>)
    ensures |Records(files)| == |AllAdded(files)|
    ensures forall k :: 0 <= k < |AllAdded(files)| ==> Records(files)[k].text == AllAdded(files)[k]
  {
    if files != [] {
      FileRecordTexts(files[0].path, files[0].edits, 0);
      hide FileRecords, AddedOf;
      RecordTexts(files[1..]);
    }
  }

  lemma ConcatEqual<T>(a: seq<T>, b: seq<T>, c: seq<T>, d: seq<T>)
    requires |a| == |c|
    ensures a + b == c + d <==> a == c && b == d
  {
    if a + b == c + d {
      assert a == (a + b)[..|a|] == c;
      assert b == (a + b)[|a|..] == d;
    }
  }

  /** Two cuts of one sequence agree if neither first part nor second part of the one is the longer. */
  lemma ConcatEqualBelow<T>(a: seq<T>, b: seq<T>, c: seq<T>, d: seq<T>)
    requires |a| <= |c| && |b| <= |d|
    ensures a + b == c + d <==> a == c && b == d
  {
    if a + b == c + d {
      assert |a + b| == |a| + |b| && |c + d| == |c| + |d|;
      ConcatEqual(a, b, c, d);
    }
  }

  // ---------------------------------------------------------------- when the records are right

  lemma {:induction false} PlainBlock(path: Option<string>, texts: seq<string>, line: nat, scan: bool)
    requires AllPlain(texts)
    ensures BlockRecords(path, texts, line, scan) == Numbered(path, texts, line)
    ensures PathThrough(path, texts) == path
    decreases |texts|
  {
    hide Plain, OnlyCounted, PathAfter, BlockRecords, PathThrough;
    if texts == [] {
      BlockStep(path, "", [], line, scan);
    } else {
      var t, more := texts[0], texts[1..];
      assert texts == [t] + more;
      BlockStep(path, t, more, line, scan);
      PlainBlock(path, more, line + 1, scan);
    }
  }

  /** A block is read right exactly when its texts are plain and it is read under the right path and
      from the right number. */
  lemma BlockRight(path: Option<string>, texts: seq<string>, line: nat, scan: bool, truth: Option<string>, first: nat)
    ensures BlockRecords(path, texts, line, scan) == Numbered(truth, texts, first) <==>
            AllPlain(texts) && (texts == [] || (path == truth && line == first))
  {
    BlockSize(path, texts, line, scan);
    NumberedShape(path, texts, line);
    NumberedShape(truth, texts, first);
    PlainCountFull(texts);
    hide BlockRecords, Numbered, AllPlain;
    if AllPlain(texts) {
      PlainBlock(path, texts, line, scan);
      if texts != [] {
        assert Numbered(path, texts, line)[0] == Yielded(path, line, texts[0]);
        assert Numbered(truth, texts, first)[0] == Yielded(truth, first, texts[0]);
      }
    }
  }

  /** Nothing that is read between the ranges and the added lines counts as a line of the new file. */
  predicate Unmoved(e: Edit, at: char -> bool) {
    e.Change? && e.added != [] ==> Strays(Between(e, at)) == 0
  }

  predicate AllUnmoved(edits: seq<Edit>, at: char -> bool) {
    forall i :: 0 <= i < |edits| ==> Unmoved(edits[i], at)
  }

  lemma UnmovedStep(edits: seq<Edit>, at: char -> bool)
    ensures edits == [] ==> AllUnmoved(edits, at)
    ensures edits != [] ==> (AllUnmoved(edits, at) <==> Unmoved(edits[0], at) && AllUnmoved(edits[1..], at))
  {
    hide Unmoved;
    if edits != [] {
      assert forall i :: 0 <= i < |edits[1..]| ==> edits[1..][i] == edits[i + 1];
      assert forall i :: 0 < i < |edits| ==> edits[i] == edits[1..][i - 1];
    }
  }

  lemma NoMoreThanTrue(path: Option<string>, texts: seq<string>, line: nat, scan: bool,
                       truth: Option<string>, first: nat)
    ensures |BlockRecords(path, texts, line, scan)| <= |Numbered(truth, texts, first)|
  {
    hide *;
    BlockSize(path, texts, line, scan);
    NumberedShape(truth, texts, first);
    PlainCountFull(texts);
  }

  lemma NoMoreReadsThanTrue(path: Option<string>, edits: seq<Edit>, pos: nat, at: char -> bool, scan: bool,
                            truth: Option<string>)
    ensures |FileReads(path, edits, pos, at, scan)| <= |FileRecords(truth, edits, pos)|
  {
    hide *;
    FileReadsSize(path, edits, pos, at, scan);
    PlainCountFull(AddedOf(edits));
    FileRecordTexts(truth, edits, pos);
  }

  lemma {:induction false} FileRight(path: Option<string>, truth: Option<string>, edits: seq<Edit>, pos: nat,
                                     at: char -> bool, scan: bool)
    ensures FileReads(path, edits, pos, at, scan) == FileRecords(truth, edits, pos) <==>
            && AllPlain(AddedOf(edits)) && (AddedOf(edits) == [] || path == truth)
            && (scan ==> AllUnmoved(edits, at))
    decreases |edits|
  {
    ReadsStep(path, edits, pos, at, scan);
    RecordsStep(truth, edits, pos);
    UnmovedStep(edits, at);
    hide FileReads, FileRecords, BlockRecords, Numbered, Strays, Between, PathThrough, AllPlain, AllUnmoved;
    if edits == [] {
      assert AllPlain([]) by { PlainCountFull([]); }
    } else {
      var e, rest := edits[0], edits[1..];
      match e {
        case Keep(_) =>
          assert AddedOf(edits) == AddedOf(rest);
          FileRight(path, truth, rest, pos + 1, at, scan);
        case Change(_, _, added, _, _) =>
          var first := pos + 1 + if scan then Strays(Between(e, at)) else 0;
          var path' := PathThrough(path, added);
          BlockRight(path, added, first, scan, truth, pos + 1);
          FileRight(path', truth, rest, pos + |added|, at, scan);
          AllPlainConcat(added, AddedOf(rest));
          if AllPlain(added) {
            PlainBlock(path, added, first, scan);
          }
          NoMoreThanTrue(path, added, first, scan, truth, pos + 1);
          NoMoreReadsThanTrue(path', rest, pos + |added|, at, scan, truth);
          ConcatEqualBelow(BlockRecords(path, added, first, scan), FileReads(path', rest, pos + |added|, at, scan),
                           Numbered(truth, added, pos + 1), FileRecords(truth, rest, pos + |added|));
      }
    }
  }

  lemma AllPlainConcat(a: seq<string>, b: seq<string>)
    ensures AllPlain(a + b) <==> AllPlain(a) && AllPlain(b)
  {
    hide Plain;
    assert forall i :: 0 <= i < |a| ==> (a + b)[i] == a[i];
    assert forall i :: 0 <= i < |b| ==> (a + b)[|a| + i] == b[i];
  }

  /** Lines are added only under names that git neither quotes nor shows with a tab. */
  predicate Legible(f: FileDiff) {
    AddedOf(f.edits) == [] || f.path.None? || (!f.quoted && ' ' !in f.path.value)
  }

  predicate AllLegible(files: seq<FileDiff>) {
    forall i :: 0 <= i < |files| ==> Legible(files[i])
  }

  lemma ReadPathRight(f: FileDiff)
    ensures ReadPath(f) == f.path <==> f.path.None? || (!f.quoted && ' ' !in f.path.value)
    ensures HasPath(ReadPath(f)) <==> HasPath(f.path) && !f.quoted
  {
    if f.path.Some? {
      assert |f.path.value + "\t"| != |f.path.value|;
    }
  }

  predicate FilesUnmoved(files: seq<FileDiff>, at: char -> bool) {
    forall i :: 0 <= i < |files| ==> AllUnmoved(files[i].edits, at)
  }

  lemma FilesStep(files: seq<FileDiff>, at: char -> bool)
    ensures files == [] ==> AllLegible(files) && FilesUnmoved(files, at)
    ensures files != [] ==>
              && (AllLegible(files) <==> Legible(files[0]) && AllLegible(files[1..]))
              && (FilesUnmoved(files, at) <==> AllUnmoved(files[0].edits, at) && FilesUnmoved(files[1..], at))
  {
    hide Legible, AllUnmoved;
    if files != [] {
      assert forall i :: 0 <= i < |files[1..]| ==> files[1..][i] == files[i + 1];
      assert forall i :: 0 < i < |files| ==> files[i] == files[1..][i - 1];
    }
  }

  /** What is read of a diff is right exactly when every added text is plain, no file that adds lines has
      a space in its name and, for the scanner, nothing in between counts. */
  lemma {:induction false} DiffRight(files: seq<FileDiff>, at: char -> bool, scan: bool)
    ensures Reads(files, at, scan) == Records(files) <==>
            AllPlain(AllAdded(files)) && AllLegible(files) && (scan ==> FilesUnmoved(files, at))
  {
    FilesStep(files, at);
    hide AllPlain, FileReads, FileRecords, AllUnmoved, FilesUnmoved, AllLegible, AddedOf;
    if files == [] {
      assert AllPlain([]) by { PlainCountFull([]); }
    } else {
      var f, rest := files[0], files[1..];
      FileRight(ReadPath(f), f.path, f.edits, 0, at, scan);
      DiffRight(rest, at, scan);
      AllPlainConcat(AddedOf(f.edits), AllAdded(rest));
      ReadPathRight(f);
      NoMoreReadsThanTrue(ReadPath(f), f.edits, 0, at, scan, f.path);
      ReadsSize(rest, at, scan);
      PlainCountFull(AllAdded(rest));
      RecordTexts(rest);
      hide ReadPath, Reads, Records;
      ReadsOf(files, at, scan);
      ConcatEqualBelow(FileReads(ReadPath(f), f.edits, 0, at, scan), Reads(rest, at, scan),
                       FileRecords(f.path, f.edits, 0), Records(rest));
    }
  }

  lemma ReadsOf(files: seq<FileDiff>, at: char -> bool, scan: bool)
    requires files != []
    ensures Reads(files, at, scan) ==
            FileReads(ReadPath(files[0]), files[0].edits, 0, at, scan) + Reads(files[1..], at, scan)
    ensures Records(files) == FileRecords(files[0].path, files[0].edits, 0) + Records(files[1..])
  {
    hide FileReads, FileRecords, ReadPath;
  }

  // ---------------------------------------------------------------- attribution

  /** Lines are added only to files that have a name. */
  predicate AllNamed(files: seq<FileDiff>) {
    forall i :: 0 <= i < |files| ==> HasPath(files[i].path) || AddedOf(files[i].edits) == []
  }

  predicate AllHavePath(recs: seq<Yielded>) {
    forall k :: 0 <= k < |recs| ==> HasPath(recs[k].path)
  }

  /** The auditor's records in the scanner's form. */
  function Lift(added: seq<Added>): seq<Yielded> {
    if added == [] then [] else [Yielded(Some(added[0].file), added[0].line, added[0].text)] + Lift(added[1..])
  }

  lemma {:induction false} LiftLength(added: seq<Added>)
    ensures |Lift(added)| == |added|
  {
    if added != [] {
      LiftLength(added[1..]);
    }
  }

  lemma LiftCons(x: Added, rest: seq<Added>)
    ensures Lift([x] + rest) == [Yielded(Some(x.file), x.line, x.text)] + Lift(rest)
    ensures Lift([]) == []
  {
    assert ([x] + rest)[1..] == rest;
  }

  lemma {:induction false} LiftConcat(a: seq<Added>, b: seq<Added>)
    ensures Lift(a + b) == Lift(a) + Lift(b)
  {
    hide Lift;
    if a == [] {
      LiftCons(Added("", 0, ""), []);
      assert a + b == b;
    } else {
      LiftConcat(a[1..], b);
      LiftCons(a[0], a[1..]);
      LiftCons(a[0], a[1..] + b);
      assert a == [a[0]] + a[1..];
      assert a + b == [a[0]] + (a[1..] + b);
    }
  }

  lemma AllHavePathCons(r: Yielded, rest: seq<Yielded>)
    ensures AllHavePath([r] + rest) <==> HasPath(r.path) && AllHavePath(rest)
  {
    hide HasPath;
    var all := [r] + rest;
    assert all[0] == r;
    assert forall k :: 0 <= k < |rest| ==> all[k + 1] == rest[k];
    if AllHavePath(all) {
      assert forall k :: 0 <= k < |rest| ==> rest[k] == all[k + 1];
    }
  }

  /** Attribution loses the records without a path and no others. */
  lemma {:induction false} AttributedAll(recs: seq<Yielded>)
    ensures |Attributed(recs)| <= |recs|
    ensures |Attributed(recs)| == |recs| <==> AllHavePath(recs)
    ensures Lift(Attributed(recs)) == recs <==> AllHavePath(recs)
  {
    LiftLength(Attributed(recs));
    if recs != [] {
      var r, rest := recs[0], recs[1..];
      assert recs == [r] + rest;
      AttributedAll(rest);
      AttributedCons(r, rest);
      AllHavePathCons(r, rest);
      hide Attributed, AllHavePath, Lift;
      if HasPath(r.path) {
        LiftCons(Added(r.path.value, r.line, r.text), Attributed(rest));
        assert [r] + Lift(Attributed(rest)) == recs ==> ([r] + Lift(Attributed(rest)))[1..] == rest;
      }
    }
  }

  lemma AllHavePathConcat(a: seq<Yielded>, b: seq<Yielded>)
    ensures AllHavePath(a + b) <==> AllHavePath(a) && AllHavePath(b)
  {
    hide HasPath;
    assert forall k :: 0 <= k < |a| ==> (a + b)[k] == a[k];
    assert forall k :: 0 <= k < |b| ==> (a + b)[|a| + k] == b[k];
  }

  lemma FileNamedIff(f: FileDiff)
    ensures AllHavePath(FileRecords(f.path, f.edits, 0)) <==> HasPath(f.path) || AddedOf(f.edits) == []
  {
    var recs := FileRecords(f.path, f.edits, 0);
    FileRecordTexts(f.path, f.edits, 0);
    hide FileRecords, AddedOf, HasPath;
    if recs != [] {
      assert recs[0].path == f.path;
    }
  }

  lemma {:induction false} NamedIff(files: seq<FileDiff>)
    ensures AllHavePath(Records(files)) <==> AllNamed(files)
  {
    if files != [] {
      var f, rest := files[0], files[1..];
      FileNamedIff(f);
      NamedIff(rest);
      AllHavePathConcat(FileRecords(f.path, f.edits, 0), Records(rest));
      hide HasPath, AddedOf, AllHavePath, FileRecords;
      assert files == [f] + rest;
      AllNamedStep(f, rest);
    }
  }

  lemma AllNamedStep(f: FileDiff, rest: seq<FileDiff>)
    ensures AllNamed([f] + rest) <==> (HasPath(f.path) || AddedOf(f.edits) == []) && AllNamed(rest)
  {
    hide HasPath, AddedOf;
    var files := [f] + rest;
    assert files[0] == f;
    assert forall i :: 0 <= i < |rest| ==> files[i + 1] == rest[i];
    if AllNamed(files) {
      assert forall i :: 0 <= i < |rest| ==> rest[i] == files[i + 1];
    }
  }

  // ---------------------------------------------------------------- the exact conditions

  /** A parser that reads the diff cut at boundaries returns no text that holds one. */
  lemma ReadTextsLack(files: seq<FileDiff>, at: char -> bool)
    ensures var lines := CutLines(Render(files), at);
            && (forall a :: a in AuditRun(AUDIT_START, lines).added ==> Lacks(a.text, at))
            && (forall y :: y in ScanRun(SCAN_START, lines).out ==> Lacks(y.text, at))
  {
    var lines := CutLines(Render(files), at);
    CutLinesPieces(Render(files), at);
    PlusTextsLack(lines, at);
    RecordsAtMostPlusLines(AUDIT_START, lines);
    ScannedTexts(SCAN_START, lines);
    TextsAt(ScanRun(SCAN_START, lines).out);
    hide AuditRun, ScanRun, PlusTexts, Lacks, Render, CutLines;
    var out := ScanRun(SCAN_START, lines).out;
    assert Texts([]) == [];
    forall y | y in out
      ensures Lacks(y.text, at)
    {
      var k :| 0 <= k < |out| && out[k] == y;
      assert Texts(out)[k] in PlusTexts(lines);
    }
  }

  lemma {:induction false} PlusTextsLack(lines: seq<string>, at: char -> bool)
    requires forall l :: l in lines ==> Lacks(l, at)
    ensures forall t :: t in PlusTexts(lines) ==> Lacks(t, at)
  {
    if lines != [] {
      assert lines[0] in lines;
      PlusTextsLack(lines[1..], at);
    }
  }

  lemma {:induction false} LiftTexts(added: seq<Added>)
    ensures |Lift(added)| == |added|
    ensures forall k :: 0 <= k < |added| ==> Lift(added)[k].text == added[k].text
  {
    if added != [] {
      LiftTexts(added[1..]);
    }
  }

  /** The auditor on a diff cut at boundaries: right if and only if the added texts are plain and free of
      boundaries and stand under names that are there and hold no space. */
  lemma AuditReadsDiff(files: seq<FileDiff>, at: char -> bool)
    requires Boundary(at) && AllQuiet(files, at)
    ensures Lift(AuditRun(AUDIT_START, CutLines(Render(files), at)).added) == Records(files) <==>
            AllPlain(AllAdded(files)) && AllNamed(files) && AllLegible(files) && AllLack(AllAdded(files), at)
  {
    hide AuditRun, ScanRun, CutLines, Render, Reads, Records, Attributed, Lift, AllHavePath, AllNamed, AllLegible;
    hide AllPlain, AllQuiet, AllAdded, Boundary, Lacks;
    var added, texts := AuditRun(AUDIT_START, CutLines(Render(files), at)).added, AllAdded(files);
    RecordTexts(files);
    if AllLack(texts, at) {
      var got := Reads(files, at, false);
      QuietDiffRead(AUDIT_START, SCAN_START, files, at);
      assert added == Attributed(got);
      DiffRight(files, at, false);
      NamedIff(files);
      AttributedAll(got);
      LiftLength(added);
      ReadsSize(files, at, false);
      PlainCountFull(texts);
    } else {
      var k :| 0 <= k < |texts| && !Lacks(texts[k], at);
      ReadTextsLack(files, at);
      LiftTexts(added);
      if k < |added| {
        assert added[k] in added;
        assert Lift(added)[k].text != Records(files)[k].text;
      }
    }
  }

  /** The scanner likewise; names do not have to be there, but nothing in between may count. */
  lemma ScanReadsDiff(files: seq<FileDiff>, at: char -> bool)
    requires Boundary(at) && AllQuiet(files, at)
    ensures ScanRun(SCAN_START, CutLines(Render(files), at)).out == Records(files) <==>
            && AllPlain(AllAdded(files)) && AllLegible(files) && FilesUnmoved(files, at)
            && AllLack(AllAdded(files), at)
  {
    hide AuditRun, ScanRun, CutLines, Render, Reads, Records, Attributed, AllLegible, FilesUnmoved;
    hide AllPlain, AllQuiet, AllAdded, Boundary, Lacks;
    var out, texts := ScanRun(SCAN_START, CutLines(Render(files), at)).out, AllAdded(files);
    RecordTexts(files);
    if AllLack(texts, at) {
      QuietDiffRead(AUDIT_START, SCAN_START, files, at);
      assert out == Reads(files, at, true);
      DiffRight(files, at, true);
    } else {
      var k :| 0 <= k < |texts| && !Lacks(texts[k], at);
      ReadTextsLack(files, at);
      if k < |out| {
        assert out[k] in out;
        assert out[k].text != Records(files)[k].text;
      }
    }
  }

  // ---------------------------------------------------------------- on the printed lines

  /** The old side ends without a newline and the hunk goes on to add lines. */
  predicate Slips(e: Edit) {
    e.Change? && e.oldNoEol && e.removed != [] && e.added != []
  }

  predicate NoSlip(edits: seq<Edit>) {
    forall j :: 0 <= j < |edits| ==> !Slips(edits[j])
  }

  predicate NoFileSlips(files: seq<FileDiff>) {
    forall i :: 0 <= i < |files| ==> NoSlip(files[i].edits)
  }

  /** Lines that open with a minus sign, as they are printed. */
  lemma {:induction false} MinusLines(texts: seq<string>)
    ensures forall l :: l in Prefixed('-', texts) ==> "-" <= l && Inert(l)
    ensures Strays(Prefixed('-', texts)) == 0
  {
    if texts != [] {
      var line := ['-'] + texts[0];
      assert line[0] == '-';
      MinusLines(texts[1..]);
      assert Prefixed('-', texts)[1..] == Prefixed('-', texts[1..]);
    }
  }

  lemma {:induction false} StraysConcat(a: seq<string>, b: seq<string>)
    ensures Strays(a + b) == Strays(a) + Strays(b)
  {
    if a == [] {
      assert a + b == b;
    } else {
      StraysConcat(a[1..], b);
      assert (a + b)[1..] == a[1..] + b;
    }
  }

  lemma MarkerStrays(present: bool)
    ensures Strays(Marker(present)) == if present then 1 else 0
    ensures forall l :: l in Marker(present) ==> Inert(l)
  {
    if present {
      assert Marker(true)[0][0] == '\\';
      assert Marker(true)[1..] == [];
    }
  }

  /** Uncut, only the marker stands between the ranges and the added lines and counts. */
  lemma BetweenUncut(e: Edit)
    requires e.Change?
    ensures QuietEdit(e, Never)
    ensures Strays(Between(e, Never)) == if e.oldNoEol && e.removed != [] then 1 else 0
  {
    var minus, mark := Prefixed('-', e.removed), Marker(e.oldNoEol && e.removed != []);
    CutLinesNever([e.section]);
    CutLinesOne(e.section, Never);
    CutLinesNever(minus);
    hide Cut, CutLines, Prefixed, Marker, Strays, Inert;
    assert [e.section][1..] == [];
    assert Between(e, Never) == minus + mark;
    MinusLines(e.removed);
    MarkerStrays(e.oldNoEol && e.removed != []);
    StraysConcat(minus, mark);
  }

  lemma QuietUncut(files: seq<FileDiff>)
    requires AllValid(files)
    ensures Boundary(Never) && AllQuiet(files, Never) && AllLack(AllAdded(files), Never)
    ensures FilesUnmoved(files, Never) <==> NoFileSlips(files)
  {
    Boundaries();
    CutLinesNever(AllAdded(files));
    forall f | f in files
      ensures QuietEdits(f.edits, Never) && (AllUnmoved(f.edits, Never) <==> NoSlip(f.edits))
    {
      forall e | e in f.edits
        ensures QuietEdit(e, Never) && (Unmoved(e, Never) <==> !Slips(e))
      {
        if e.Change? {
          BetweenUncut(e);
        }
      }
      hide QuietEdit, Unmoved, Slips;
      assert forall i :: 0 <= i < |f.edits| ==> f.edits[i] in f.edits;
    }
    hide QuietEdits, AllUnmoved, NoSlip, Valid, AllAdded;
    forall i | 0 <= i < |files|
      ensures Quiet(files[i], Never)
    {
      assert files[i] in files;
      CutLinesNever(files[i].meta);
    }
    assert forall i :: 0 <= i < |files| ==> files[i] in files;
  }

  /** What both parsers return, for all edit scripts: one record per plain added text, under the path and
      the number that the texts before it have left current. */
  lemma WholeDiffParsed(files: seq<FileDiff>)
    requires AllValid(files)
    ensures AuditRun(AUDIT_START, Render(files)).added == Attributed(Reads(files, Never, false))
    ensures ScanRun(SCAN_START, Render(files)).out == Reads(files, Never, true)
  {
    hide *;
    QuietUncut(files);
    CutLinesNever(Render(files));
    QuietDiffRead(AUDIT_START, SCAN_START, files, Never);
    Beginnings();
  }

  lemma Beginnings()
    ensures AUDIT_START.added == [] && SCAN_START.out == []
  {
  }

  /** The drift auditor returns, in order, one record per added line with its true line number, exactly
      when no added text begins with two plus signs and lines are added only under names that are there, not
      quoted and without a space. */
  lemma AuditParsesDiff(files: seq<FileDiff>)
    requires AllValid(files)
    ensures Lift(AuditRun(AUDIT_START, Render(files)).added) == Records(files) <==>
            AllPlain(AllAdded(files)) && AllNamed(files) && AllLegible(files)
  {
    hide *;
    QuietUncut(files);
    CutLinesNever(Render(files));
    AuditReadsDiff(files, Never);
  }

  /** The staged scanner does so exactly when no added text begins with two plus signs, lines are added only
      under names that are neither quoted nor hold a space, and no hunk that adds lines carries the no-newline
      marker for its old side: that marker is counted as a line of the new file. */
  lemma ScanParsesDiff(files: seq<FileDiff>)
    requires AllValid(files)
    ensures ScanRun(SCAN_START, Render(files)).out == Records(files) <==>
            AllPlain(AllAdded(files)) && AllLegible(files) && NoFileSlips(files)
  {
    hide *;
    QuietUncut(files);
    CutLinesNever(Render(files));
    ScanReadsDiff(files, Never);
  }

  /** A recorded name that was shown with a tab is no longer the name of a Python file, or of any file
      with a suffix. */
  lemma SpacedNameKeepsTab(st: AuditState, sc: ScanState, f: FileDiff, name: string, suffix: string)
    requires Valid(f) && f.path == Some(name) && !f.quoted && ' ' in name && AllPlain(AddedOf(f.edits))
    requires suffix != "" && suffix[|suffix| - 1] != '\t'
    ensures var read := name + "\t";
            && AuditRun(st, RenderFile(f)).added == st.added + Attributed(FileRecords(Some(read), f.edits, 0))
            && read != name && !(|read| >= |suffix| && read[|read| - |suffix|..] == suffix)
  {
    var read := name + "\t";
    assert read[|read| - 1] == '\t';
    assert |read| >= |suffix| ==> read[|read| - |suffix|..][|suffix| - 1] == '\t';
    assert [f][0] == f && AllValid([f]);
    QuietUncut([f]);
    assert Quiet([f][0], Never);
    hide *;
    CutLinesNever(RenderFile(f));
    CutLinesNever(AddedOf(f.edits));
    FileRead(st, sc, f, Never);
    QuietScript(ReadPath(f), f.edits, 0, Never);
    FileRight(Some(read), Some(read), f.edits, 0, Never, false);
    TabbedPath(f, name);
  }

  lemma TabbedPath(f: FileDiff, name: string)
    requires f.path == Some(name) && !f.quoted && ' ' in name
    ensures ReadPath(f) == Some(name + "\t")
  {
  }

  /** A name that git quotes is lost: the auditor records nothing of the file, the scanner yields its added
      lines without a path. */
  lemma QuotedNameIsLost(st: AuditState, sc: ScanState, f: FileDiff)
    requires Valid(f) && f.quoted && AllPlain(AddedOf(f.edits)) && NoSlip(f.edits)
    ensures AuditRun(st, RenderFile(f)).added == st.added
    ensures ScanRun(sc, RenderFile(f)).out == sc.out + FileRecords(None, f.edits, 0)
  {
    assert [f][0] == f && AllValid([f]);
    QuietUncut([f]);
    assert Quiet([f][0], Never);
    assert NoFileSlips([f]);
    assert FilesUnmoved([f], Never) && AllUnmoved([f][0].edits, Never);
    var recs := FileRecords(None, f.edits, 0);
    FileRecordTexts(None, f.edits, 0);
    NoneAttributed(recs);
    assert ReadPath(f) == None;
    hide *;
    CutLinesNever(RenderFile(f));
    CutLinesNever(AddedOf(f.edits));
    FileRead(st, sc, f, Never);
    QuietScript(ReadPath(f), f.edits, 0, Never);
    FileRight(None, None, f.edits, 0, Never, false);
    FileRight(None, None, f.edits, 0, Never, true);
  }

  lemma {:induction false} NoneAttributed(recs: seq<Yielded>)
    requires forall k :: 0 <= k < |recs| ==> recs[k].path.None?
    ensures Attributed(recs) == []
  {
    if recs != [] {
      NoneAttributed(recs[1..]);
    }
  }

  // ---------------------------------------------------------------- what the records mean

  /** The record names a line of `lines`, which are numbered from `pos + 1`, and carries its text. */
  predicate IsLine(r: Yielded, path: Option<string>, lines: seq<string>, pos: nat) {
    r.path == path && pos < r.line <= pos + |lines| && lines[r.line - pos - 1] == r.text
  }

  ghost predicate Indexes(recs: seq<Yielded>, path: Option<string>, lines: seq<string>, pos: nat) {
    && (forall k :: 0 <= k < |recs| ==> IsLine(recs[k], path, lines, pos))
    && (forall j, k :: 0 <= j < k < |recs| ==> recs[j].line < recs[k].line)
  }

  lemma IndexesConcat(a: seq<Yielded>, b: seq<Yielded>, path: Option<string>,
                      head: seq<string>, tail: seq<string>, pos: nat)
    requires Indexes(a, path, head, pos) && Indexes(b, path, tail, pos + |head|)
    ensures Indexes(a + b, path, head + tail, pos)
  {
    var all := a + b;
    forall k | 0 <= k < |all|
      ensures IsLine(all[k], path, head + tail, pos)
    {
      if k < |a| {
        assert IsLine(a[k], path, head, pos);
      } else {
        assert IsLine(b[k - |a|], path, tail, pos + |head|);
      }
    }
    forall j, k | 0 <= j < k < |all|
      ensures all[j].line < all[k].line
    {
      if j < |a| <= k {
        assert IsLine(a[j], path, head, pos) && IsLine(b[k - |a|], path, tail, pos + |head|);
      }
    }
  }

  lemma NumberedIndexes(path: Option<string>, texts: seq<string>, pos: nat)
    ensures Indexes(Numbered(path, texts, pos + 1), path, texts, pos)
  {
    var recs := Numbered(path, texts, pos + 1);
    NumberedShape(path, texts, pos + 1);
    hide Numbered;
    assert forall k :: 0 <= k < |recs| ==> IsLine(recs[k], path, texts, pos);
  }

  lemma NewFileStep(edits: seq<Edit>)
    requires edits != []
    ensures NewFile(edits) ==
            (match edits[0] case Keep(t) => [t] case Change(_, _, added, _, _) => added) + NewFile(edits[1..])
  {
  }

  /** A kept line shifts the records that follow and names none. */
  lemma KeptIndexes(recs: seq<Yielded>, path: Option<string>, text: string, tail: seq<string>, pos: nat)
    requires Indexes(recs, path, tail, pos + 1)
    ensures Indexes(recs, path, [text] + tail, pos)
  {
    NoneIndexes(path, [text], pos);
    hide Indexes;
    IndexesConcat([], recs, path, [text], tail, pos);
    assert [] + recs == recs;
  }

  /** Every record names a line of the new file and carries that very line; line numbers rise. */
  lemma {:induction false} RecordsIndexNewFile(path: Option<string>, edits: seq<Edit>, pos: nat)
    ensures Indexes(FileRecords(path, edits, pos), path, NewFile(edits), pos)
    decreases |edits|
  {
    hide Indexes, Numbered, IsLine, FileRecords, NewFile;
    if edits == [] {
      RecordsStep(path, edits, pos);
      NoneIndexes(path, NewFile(edits), pos);
    } else {
      var rest := edits[1..];
      RecordsStep(path, edits, pos);
      NewFileStep(edits);
      match edits[0] {
        case Keep(t) =>
          RecordsIndexNewFile(path, rest, pos + 1);
          KeptIndexes(FileRecords(path, rest, pos + 1), path, t, NewFile(rest), pos);
        case Change(_, _, added, _, _) =>
          NumberedIndexes(path, added, pos);
          RecordsIndexNewFile(path, rest, pos + |added|);
          IndexesConcat(Numbered(path, added, pos + 1), FileRecords(path, rest, pos + |added|),
                        path, added, NewFile(rest), pos);
      }
    }
  }

  lemma NoneIndexes(path: Option<string>, lines: seq<string>, pos: nat)
    ensures Indexes([], path, lines, pos)
  {
  }

  predicate Named(recs: seq<Yielded>, line: nat) {
    exists k :: 0 <= k < |recs| && recs[k].line == line
  }

  /** The lines, numbered from `first`, that no record names. */
  function Unrecorded(lines: seq<string>, first: nat, recs: seq<Yielded>): seq<string> {
    if lines == [] then []
    else (if Named(recs, first) then [] else [lines[0]]) + Unrecorded(lines[1..], first + 1, recs)
  }

  lemma NamedConcat(a: seq<Yielded>, b: seq<Yielded>, line: nat)
    ensures Named(a + b, line) <==> Named(a, line) || Named(b, line)
  {
    if Named(a, line) {
      var k :| 0 <= k < |a| && a[k].line == line;
      assert (a + b)[k].line == line;
    }
    if Named(b, line) {
      var k :| 0 <= k < |b| && b[k].line == line;
      assert (a + b)[|a| + k].line == line;
    }
    if Named(a + b, line) {
      var k :| 0 <= k < |a + b| && (a + b)[k].line == line;
      assert k >= |a| ==> b[k - |a|].line == line;
    }
  }

  lemma UnrecordedStep(lines: seq<string>, first: nat, recs: seq<Yielded>)
    requires lines != []
    ensures Unrecorded(lines, first, recs) ==
            (if Named(recs, first) then [] else [lines[0]]) + Unrecorded(lines[1..], first + 1, recs)
  {
    hide Named;
  }

  lemma NoneUnrecorded(first: nat, recs: seq<Yielded>)
    ensures Unrecorded([], first, recs) == []
  {
  }

  lemma {:induction false} UnrecordedPrefix(a: seq<string>, b: seq<string>, first: nat, recs: seq<Yielded>)
    ensures Unrecorded(a + b, first, recs) == Unrecorded(a, first, recs) + Unrecorded(b, first + |a|, recs)
    decreases |a|
  {
    hide Named, Unrecorded;
    if a == [] {
      assert a + b == b;
      NoneUnrecorded(first, recs);
    } else {
      assert (a + b)[1..] == a[1..] + b && (a + b)[0] == a[0];
      UnrecordedPrefix(a[1..], b, first + 1, recs);
      UnrecordedStep(a, first, recs);
      UnrecordedStep(a + b, first, recs);
    }
  }

  lemma {:induction false} UnrecordedWindow(lines: seq<string>, first: nat, more: seq<Yielded>, recs: seq<Yielded>)
    requires forall i :: first <= i < first + |lines| ==> !Named(more, i)
    ensures Unrecorded(lines, first, more + recs) == Unrecorded(lines, first, recs)
    decreases |lines|
  {
    hide Named;
    if lines != [] {
      UnrecordedWindow(lines[1..], first + 1, more, recs);
      NamedConcat(more, recs, first);
    }
  }

  lemma {:induction false} UnrecordedNone(lines: seq<string>, first: nat, recs: seq<Yielded>)
    requires forall i :: first <= i < first + |lines| ==> Named(recs, i)
    ensures Unrecorded(lines, first, recs) == []
    decreases |lines|
  {
    hide Named;
    if lines != [] {
      UnrecordedNone(lines[1..], first + 1, recs);
    }
  }

  lemma BlockNamed(path: Option<string>, texts: seq<string>, line: nat, recs: seq<Yielded>)
    ensures forall i :: line <= i < line + |texts| ==> Named(Numbered(path, texts, line) + recs, i)
    ensures forall i: nat :: i >= line + |texts| ==> !Named(Numbered(path, texts, line), i)
  {
    var block := Numbered(path, texts, line);
    NumberedShape(path, texts, line);
    forall i | line <= i < line + |texts|
      ensures Named(block + recs, i)
    {
      assert (block + recs)[i - line].line == i;
    }
  }

  lemma UnrecordedKeep(text: string, tail: seq<string>, line: nat, recs: seq<Yielded>)
    requires !Named(recs, line)
    ensures Unrecorded([text] + tail, line, recs) == [text] + Unrecorded(tail, line + 1, recs)
  {
    hide Named;
    assert ([text] + tail)[1..] == tail;
  }

  lemma UnrecordedBlock(path: Option<string>, texts: seq<string>, tail: seq<string>, line: nat, recs: seq<Yielded>)
    ensures Unrecorded(texts + tail, line, Numbered(path, texts, line) + recs) ==
            Unrecorded(tail, line + |texts|, recs)
  {
    hide Unrecorded, Numbered, Named;
    var block := Numbered(path, texts, line);
    BlockNamed(path, texts, line, recs);
    UnrecordedPrefix(texts, tail, line, block + recs);
    UnrecordedNone(texts, line, block + recs);
    UnrecordedWindow(tail, line + |texts|, block, recs);
  }

  /** What the records leave out of the new file is exactly what both files share: no kept line is
      recorded, no added line is missed. */
  lemma {:induction false} UnrecordedIsKept(path: Option<string>, edits: seq<Edit>, pos: nat)
    ensures Unrecorded(NewFile(edits), pos + 1, FileRecords(path, edits, pos)) == Kept(edits)
    decreases |edits|
  {
    hide Named, Numbered, Unrecorded, FileRecords, Indexes;
    if edits == [] {
      UnrecordedNone([], pos + 1, FileRecords(path, edits, pos));
    } else {
      var rest := edits[1..];
      RecordsStep(path, edits, pos);
      match edits[0] {
        case Keep(t) =>
          UnrecordedIsKept(path, rest, pos + 1);
          RecordsIndexNewFile(path, rest, pos + 1);
          NotNamedBelow(FileRecords(path, rest, pos + 1), path, NewFile(rest), pos + 1);
          UnrecordedKeep(t, NewFile(rest), pos + 1, FileRecords(path, rest, pos + 1));
        case Change(_, _, added, _, _) =>
          UnrecordedIsKept(path, rest, pos + |added|);
          UnrecordedBlock(path, added, NewFile(rest), pos + 1, FileRecords(path, rest, pos + |added|));
      }
    }
  }

  lemma NotNamedBelow(recs: seq<Yielded>, path: Option<string>, lines: seq<string>, pos: nat)
    requires Indexes(recs, path, lines, pos)
    ensures !Named(recs, pos)
  {
    assert forall k :: 0 <= k < |recs| ==> IsLine(recs[k], path, lines, pos);
  }
}
