/** The staged secret gate: the scanner's added lines, the line patterns and the verdict. */
module StagedScan {
  import opened Text
  import opened DiffParsers
  import opened DiffCut
  import opened DiffRender
  import opened DiffReading
  import opened DiffTheorems
  import opened DiffText

  /** A secret pattern; its regular expression is any predicate on a line. */
  datatype Pattern = Pattern(name: string, hit: string -> bool)
  datatype Block = Block(path: string, line: nat, kind: string)

  function Hits(patterns: seq<Pattern>, line: string): seq<string> {
    if patterns == [] then []
    else (if patterns[0].hit(line) then [patterns[0].name] else []) + Hits(patterns[1..], line)
  }

  /** `scan_line`. */
  function ScanLine(patterns: seq<Pattern>, line: string): seq<string> {
    if Contains(line, "allowlist secret") then [] else Hits(patterns, line)
  }

  /** A line's hits are the names of the patterns it matches, unless it carries the marker anywhere. */
  lemma HitIff(patterns: seq<Pattern>, line: string, name: string)
    ensures name in ScanLine(patterns, line) <==>
            && !(exists i :: 0 <= i <= |line| - 16 && line[i..][..16] == "allowlist secret")
            && exists p :: p in patterns && p.name == name && p.hit(line)
  {
    var marker := "allowlist secret";
    assert |marker| == 16;
    ContainsIff(line, marker);
    HitsAre(patterns, line, name);
    hide Contains, Hits;
  }

  lemma {:induction false} HitsAre(patterns: seq<Pattern>, line: string, name: string)
    ensures name in Hits(patterns, line) <==> exists p :: p in patterns && p.name == name && p.hit(line)
  {
    if patterns != [] {
      HitsAre(patterns[1..], line, name);
      assert forall p :: p in patterns <==> p == patterns[0] || p in patterns[1..];
    }
  }

  function PathBlocks(changed: seq<string>, personal: string -> bool): seq<Block> {
    if changed == [] then []
    else (if personal(changed[0]) then [Block(changed[0], 0, "PERSONAL/PRIVATE PATH")] else [])
         + PathBlocks(changed[1..], personal)
  }

  function ShownPath(path: Option<string>): string {
    if path.None? || path.value == "" then "?" else path.value
  }

  function HitBlocks(y: Yielded, hits: seq<string>): seq<Block> {
    if hits == [] then [] else [Block(ShownPath(y.path), y.line, hits[0])] + HitBlocks(y, hits[1..])
  }

  function LineBlocks(patterns: seq<Pattern>, out: seq<Yielded>): seq<Block> {
    if out == [] then [] else HitBlocks(out[0], ScanLine(patterns, out[0].text)) + LineBlocks(patterns, out[1..])
  }

  method BlockPaths(changed: seq<string>, personal: string -> bool) returns (blocks: seq<Block>)
    ensures blocks == PathBlocks(changed, personal)
  {
    blocks := [];
    for i := 0 to |changed|
      invariant blocks + PathBlocks(changed[i..], personal) == PathBlocks(changed, personal)
    {
      assert changed[i..][1..] == changed[i + 1..];
      if personal(changed[i]) {
        blocks := blocks + [Block(changed[i], 0, "PERSONAL/PRIVATE PATH")];
      }
    }
  }

  method BlockHits(y: Yielded, hits: seq<string>) returns (blocks: seq<Block>)
    ensures blocks == HitBlocks(y, hits)
  {
    blocks := [];
    for j := 0 to |hits|
      invariant blocks + HitBlocks(y, hits[j..]) == HitBlocks(y, hits)
    {
      assert hits[j..][1..] == hits[j + 1..];
      blocks := blocks + [Block(ShownPath(y.path), y.line, hits[j])];
    }
  }

  method BlockLines(patterns: seq<Pattern>, out: seq<Yielded>) returns (blocks: seq<Block>)
    ensures blocks == LineBlocks(patterns, out)
  {
    hide ScanLine, HitBlocks;
    blocks := [];
    for i := 0 to |out|
      invariant blocks + LineBlocks(patterns, out[i..]) == LineBlocks(patterns, out)
    {
      LineBlocksStep(patterns, out, i);
      var more := BlockHits(out[i], ScanLine(patterns, out[i].text));
      blocks := blocks + more;
    }
  }

  /** No pattern hits any of the texts. */
  predicate Clean(patterns: seq<Pattern>, texts: seq<string>) {
    forall t :: t in texts ==> ScanLine(patterns, t) == []
  }

  /** `_scan`, given the changed paths and what git writes as the diff. */
  method Scan(changed: seq<string>, personal: string -> bool, patterns: seq<Pattern>, output: string)
    returns (blocks: seq<Block>, code: int)
    ensures blocks == PathBlocks(changed, personal) + LineBlocks(patterns, ScanText(output))
    ensures code == 0 <==> (forall p :: p in changed ==> !personal(p))
                           && Clean(patterns, PlusTexts(SplitLines(Translated(output))))
    ensures code == 0 || code == 1
  {
    hide ScanLine, SplitLines, Translated, ScanRun, PathBlocks, LineBlocks;
    var paths := BlockPaths(changed, personal);
    var out := AddedLines(output);
    var lines := BlockLines(patterns, out);
    blocks := paths + lines;
    NoPathBlocks(changed, personal);
    NoLineBlocks(patterns, out);
    ScannedTexts(SCAN_START, SplitLines(Translated(output)));
    YieldedClean(patterns, out);
    assert Texts([]) == [];
    code := if blocks == [] then 0 else 1;
  }

  /** The verdict looks at the texts of the yielded lines only. */
  lemma YieldedClean(patterns: seq<Pattern>, out: seq<Yielded>)
    ensures Clean(patterns, Texts(out)) <==> forall y :: y in out ==> ScanLine(patterns, y.text) == []
  {
    TextsAt(out);
    hide ScanLine, Texts;
    if Clean(patterns, Texts(out)) {
      forall y | y in out
        ensures ScanLine(patterns, y.text) == []
      {
        var k :| 0 <= k < |out| && out[k] == y;
        assert Texts(out)[k] in Texts(out);
      }
    }
    if forall y :: y in out ==> ScanLine(patterns, y.text) == [] {
      forall t | t in Texts(out)
        ensures ScanLine(patterns, t) == []
      {
        var k :| 0 <= k < |out| && Texts(out)[k] == t;
        assert out[k] in out;
      }
    }
  }

  lemma NoHitBlocks(y: Yielded, hits: seq<string>)
    ensures HitBlocks(y, hits) == [] <==> hits == []
  {
  }

  lemma LineBlocksStep(patterns: seq<Pattern>, out: seq<Yielded>, i: nat)
    requires i < |out|
    ensures LineBlocks(patterns, out[i..]) ==
            HitBlocks(out[i], ScanLine(patterns, out[i].text)) + LineBlocks(patterns, out[i + 1..])
  {
    hide ScanLine, HitBlocks;
    assert out[i..][1..] == out[i + 1..];
  }

  lemma {:induction false} NoPathBlocks(changed: seq<string>, personal: string -> bool)
    ensures PathBlocks(changed, personal) == [] <==> forall p :: p in changed ==> !personal(p)
  {
    if changed != [] {
      NoPathBlocks(changed[1..], personal);
      assert changed == [changed[0]] + changed[1..];
    }
  }

  lemma {:induction false} NoLineBlocks(patterns: seq<Pattern>, out: seq<Yielded>)
    ensures LineBlocks(patterns, out) == [] <==> forall y :: y in out ==> ScanLine(patterns, y.text) == []
  {
    hide ScanLine, HitBlocks;
    if out != [] {
      NoHitBlocks(out[0], ScanLine(patterns, out[0].text));
      NoLineBlocks(patterns, out[1..]);
      assert out == [out[0]] + out[1..];
      assert forall y :: y in out <==> y == out[0] || y in out[1..];
    }
  }

  lemma {:induction false} HitBlockIff(y: Yielded, hits: seq<string>, b: Block)
    ensures b in HitBlocks(y, hits) <==>
            && b.line == y.line && b.kind in hits
            && b.path == match y.path case Some(p) => (if p == "" then "?" else p) case None => "?"
  {
    if hits != [] {
      HitBlockIff(y, hits[1..], b);
      assert forall h :: h in hits <==> h == hits[0] || h in hits[1..];
    }
  }

  /** The reports are, for each read line and each pattern it hits, that pattern's name at that line. */
  lemma {:induction false} LineBlockIff(patterns: seq<Pattern>, out: seq<Yielded>, b: Block)
    ensures b in LineBlocks(patterns, out) <==>
            exists y :: && y in out && b.line == y.line && b.kind in ScanLine(patterns, y.text)
                        && b.path == match y.path case Some(p) => (if p == "" then "?" else p) case None => "?"
  {
    hide ScanLine, HitBlocks;
    if out != [] {
      HitBlockIff(out[0], ScanLine(patterns, out[0].text), b);
      LineBlockIff(patterns, out[1..], b);
      assert forall y :: y in out <==> y == out[0] || y in out[1..];
    }
  }

  lemma {:induction false} PathBlockIff(changed: seq<string>, personal: string -> bool, b: Block)
    ensures b in PathBlocks(changed, personal) <==>
            b.path in changed && personal(b.path) && b.line == 0 && b.kind == "PERSONAL/PRIVATE PATH"
  {
    if changed != [] {
      PathBlockIff(changed[1..], personal, b);
      assert forall p :: p in changed <==> p == changed[0] || p in changed[1..];
    }
  }

  // ---------------------------------------------------------------- the verdict on a printed diff

  /** What the scanner reads of one added text: its piece before the first boundary, unless that opens with
      two plus signs, and any later piece that looks like an added line. */
  function ReadOf(text: string, at: char -> bool): seq<string> {
    PlusTexts(Cut(['+'] + text, at))
  }

  function ReadsOf(texts: seq<string>, at: char -> bool): seq<string> {
    if texts == [] then [] else ReadOf(texts[0], at) + ReadsOf(texts[1..], at)
  }

  /** What it reads of a script: besides the added texts, pieces of removed lines and headings that look
      like added lines. */
  function EditsRead(edits: seq<Edit>, at: char -> bool): seq<string> {
    if edits == [] then []
    else match edits[0]
      case Keep(_) => EditsRead(edits[1..], at)
      case Change(_, _, added, _, _) =>
        PlusTexts(Between(edits[0], at)) + (ReadsOf(added, at) + EditsRead(edits[1..], at))
  }

  function DiffTexts(files: seq<FileDiff>, at: char -> bool): seq<string> {
    if files == [] then [] else EditsRead(files[0].edits, at) + DiffTexts(files[1..], at)
  }

  lemma {:induction false} NoPlusLines(lines: seq<string>)
    requires forall i :: 0 <= i < |lines| ==> !PlusLine(lines[i])
    ensures PlusTexts(lines) == []
  {
    if lines != [] {
      NoPlusLines(lines[1..]);
    }
  }

  lemma {:induction false} AddedTexts(texts: seq<string>, at: char -> bool)
    ensures PlusTexts(CutLines(Prefixed('+', texts), at)) == ReadsOf(texts, at)
  {
    hide Cut, PlusTexts;
    if texts == [] {
      NoPlusLines([]);
    } else {
      var line, more := ['+'] + texts[0], Prefixed('+', texts[1..]);
      AddedTexts(texts[1..], at);
      assert Prefixed('+', texts) == [line] + more;
      hide CutLines;
      CutLinesConcat([line], more, at);
      CutLinesOne(line, at);
      PlusTextsConcat(Cut(line, at), CutLines(more, at));
    }
  }

  lemma HeaderText(oldPos: nat, newPos: nat, e: Edit, section: string)
    requires e.Change?
    ensures PlusTexts([Range(oldPos, newPos, e) + section]) == []
  {
    var line := Range(oldPos, newPos, e) + section;
    HeaderStartsHunk(oldPos, newPos, e, section);
    HunkOpens(line);
    hide Range, HunkStart;
    assert line[0] == '@';
    NoPlusLines([line]);
  }

  lemma MarkerText(present: bool)
    ensures PlusTexts(Marker(present)) == []
  {
    if present {
      assert Marker(true)[0][0] == '\\';
    }
    NoPlusLines(Marker(present));
  }

  lemma EditsReadStep(edits: seq<Edit>, at: char -> bool)
    ensures EditsRead([], at) == []
    ensures edits != [] ==>
              EditsRead(edits, at) ==
              match edits[0]
              case Keep(_) => EditsRead(edits[1..], at)
              case Change(_, _, added, _, _) =>
                PlusTexts(Between(edits[0], at)) + (ReadsOf(added, at) + EditsRead(edits[1..], at))
  {
    hide PlusTexts, Between, ReadsOf;
  }

  lemma HunkTexts(oldPos: nat, newPos: nat, e: Edit, at: char -> bool)
    requires Boundary(at) && e.Change?
    ensures PlusTexts(CutLines(Hunk(oldPos, newPos, e), at)) == PlusTexts(Between(e, at)) + ReadsOf(e.added, at)
  {
    hide *;
    var first, end := Range(oldPos, newPos, e) + Cut(e.section, at)[0], Marker(e.newNoEol && e.added != []);
    var plus := CutLines(Prefixed('+', e.added), at);
    HunkCut(oldPos, newPos, e, at);
    AddedTexts(e.added, at);
    HeaderText(oldPos, newPos, e, Cut(e.section, at)[0]);
    MarkerText(e.newNoEol && e.added != []);
    PlusTextsConcat([first], Between(e, at) + (plus + end));
    PlusTextsConcat(Between(e, at), plus + end);
    PlusTextsConcat(plus, end);
  }

  lemma HunkThenTexts(oldPos: nat, newPos: nat, e: Edit, more: seq<string>, at: char -> bool)
    requires Boundary(at) && e.Change?
    ensures PlusTexts(CutLines(Hunk(oldPos, newPos, e), at) + more) ==
            PlusTexts(Between(e, at)) + (ReadsOf(e.added, at) + PlusTexts(more))
  {
    hide *;
    HunkTexts(oldPos, newPos, e, at);
    PlusTextsConcat(CutLines(Hunk(oldPos, newPos, e), at), more);
    var stray, own, rest := PlusTexts(Between(e, at)), ReadsOf(e.added, at), PlusTexts(more);
    assert (stray + own) + rest == stray + (own + rest);
  }

  lemma {:induction false} HunksTexts(oldPos: nat, newPos: nat, edits: seq<Edit>, at: char -> bool)
    requires Boundary(at)
    ensures PlusTexts(CutLines(Hunks(oldPos, newPos, edits), at)) == EditsRead(edits, at)
    decreases |edits|
  {
    hide *;
    HunksStep(oldPos, newPos, edits, at);
    NoPlusLines([]);
    EditsReadStep(edits, at);
    if edits != [] {
      var e, rest := edits[0], edits[1..];
      match e {
        case Keep(_) =>
          HunksTexts(oldPos + 1, newPos + 1, rest, at);
        case Change(removed, _, added, _, _) =>
          HunkThenTexts(oldPos, newPos, e, CutLines(Hunks(oldPos + |removed|, newPos + |added|, rest), at), at);
          HunksTexts(oldPos + |removed|, newPos + |added|, rest, at);
      }
    }
  }

  lemma FileTexts(f: FileDiff, at: char -> bool)
    requires Boundary(at) && Valid(f) && CleanHead(f, at)
    ensures PlusTexts(CutLines(RenderFile(f), at)) == EditsRead(f.edits, at)
  {
    var first, minus, plus := "diff --git " + f.title, "--- " + f.oldName, NewName(f);
    assert first[0] == 'd' && minus[0] == '-' && "+++" <= plus;
    NoPlusLines([first] + (f.meta + Names(f)));
    HeadCut(f, at);
    HunksTexts(0, 0, f.edits, at);
    hide *;
    PlusTextsConcat(["diff --git " + f.title] + (f.meta + Names(f)), CutLines(Hunks(0, 0, f.edits), at));
  }

  /** The texts the scanner reads of any printed diff, without a condition on what it adds or removes. */
  lemma {:induction false} TextsOfDiff(files: seq<FileDiff>, at: char -> bool)
    requires Boundary(at) && AllValid(files) && CleanHeads(files, at)
    ensures PlusTexts(CutLines(Render(files), at)) == DiffTexts(files, at)
  {
    NothingCut(at);
    NoPlusLines([]);
    hide Boundary, Valid, CleanHead, RenderFile, CutLines, PlusTexts, EditsRead;
    if files != [] {
      FileTexts(files[0], at);
      TextsOfDiff(files[1..], at);
      CutLinesConcat(RenderFile(files[0]), Render(files[1..]), at);
      PlusTextsConcat(CutLines(RenderFile(files[0]), at), CutLines(Render(files[1..]), at));
    }
  }

  /** What the gate reads in git's output. */
  lemma GateReads(files: seq<FileDiff>)
    requires AllValid(files) && CleanHeads(files, IsBreak) && Feedless(Render(files))
    ensures PlusTexts(SplitLines(Translated(Raw(Render(files))))) == DiffTexts(files, IsBreak)
  {
    SplitLinesRaw(Render(files));
    hide *;
    Boundaries();
    TextsOfDiff(files, IsBreak);
  }

  lemma {:induction false} ReadsOfConcat(a: seq<string>, b: seq<string>, at: char -> bool)
    ensures ReadsOf(a + b, at) == ReadsOf(a, at) + ReadsOf(b, at)
  {
    hide ReadOf, ReadsOf;
    NothingRead(at);
    if a == [] {
      assert a + b == b;
    } else {
      ReadsOfConcat(a[1..], b, at);
      assert (a + b)[1..] == a[1..] + b && (a + b)[0] == a[0];
      ReadsOfStep(a, at);
      ReadsOfStep(a + b, at);
    }
  }

  lemma ReadsOfStep(texts: seq<string>, at: char -> bool)
    requires texts != []
    ensures ReadsOf(texts, at) == ReadOf(texts[0], at) + ReadsOf(texts[1..], at)
  {
    hide ReadOf;
  }

  lemma NothingRead(at: char -> bool)
    ensures ReadsOf([], at) == []
  {
  }

  /** Pieces cut off removed lines and headings that look like added lines. */
  function EditsStrays(edits: seq<Edit>, at: char -> bool): seq<string> {
    if edits == [] then []
    else (if edits[0].Change? then PlusTexts(Between(edits[0], at)) else []) + EditsStrays(edits[1..], at)
  }

  function DiffStrays(files: seq<FileDiff>, at: char -> bool): seq<string> {
    if files == [] then [] else EditsStrays(files[0].edits, at) + DiffStrays(files[1..], at)
  }

  lemma {:induction false} EditsReadIn(edits: seq<Edit>, at: char -> bool, u: string)
    ensures u in EditsRead(edits, at) <==> u in ReadsOf(AddedOf(edits), at) || u in EditsStrays(edits, at)
  {
    EditsReadStep(edits, at);
    AddedStep(edits);
    NothingRead(at);
    hide PlusTexts, Between, ReadsOf, EditsRead, AddedOf;
    if edits != [] {
      EditsReadIn(edits[1..], at, u);
      match edits[0] {
        case Keep(_) =>
          assert AddedOf(edits) == AddedOf(edits[1..]);
        case Change(_, _, added, _, _) =>
          ReadsOfConcat(added, AddedOf(edits[1..]), at);
      }
    }
  }

  lemma {:induction false} DiffTextsIn(files: seq<FileDiff>, at: char -> bool, u: string)
    ensures u in DiffTexts(files, at) <==> u in ReadsOf(AllAdded(files), at) || u in DiffStrays(files, at)
  {
    NothingRead(at);
    hide EditsRead, EditsStrays, ReadsOf, AddedOf;
    if files != [] {
      EditsReadIn(files[0].edits, at, u);
      DiffTextsIn(files[1..], at, u);
      ReadsOfConcat(AddedOf(files[0].edits), AllAdded(files[1..]), at);
    }
  }

  lemma QuietReadsNothing(e: Edit, at: char -> bool)
    requires e.Change? && QuietEdit(e, at)
    ensures PlusTexts(Between(e, at)) == []
  {
    assert forall l :: l in Between(e, at) ==> Inert(l) && !PlusLine(l);
    hide Between;
    NoPlusLines(Between(e, at));
  }

  lemma {:induction false} QuietEditsStrays(edits: seq<Edit>, at: char -> bool)
    requires QuietEdits(edits, at)
    ensures EditsStrays(edits, at) == []
  {
    if edits != [] {
      QuietRest(edits, at);
      hide QuietEdit, QuietEdits, PlusTexts, Between;
      QuietEditsStrays(edits[1..], at);
      if edits[0].Change? {
        QuietReadsNothing(edits[0], at);
      }
    }
  }

  /** There are none where whatever is cut off is inert, as without boundaries in removed lines. */
  lemma {:induction false} QuietStrays(files: seq<FileDiff>, at: char -> bool)
    requires AllQuiet(files, at)
    ensures DiffStrays(files, at) == [] && AllValid(files) && CleanHeads(files, at)
  {
    if files != [] {
      assert Quiet(files[0], at);
      hide Valid, CleanHead, QuietEdits, EditsStrays;
      assert forall i :: 0 <= i < |files[1..]| ==> files[1..][i] == files[i + 1];
      QuietEditsStrays(files[0].edits, at);
      QuietStrays(files[1..], at);
    }
  }

  lemma {:induction false} ReadsOfIn(texts: seq<string>, at: char -> bool, u: string)
    ensures u in ReadsOf(texts, at) <==> exists t :: t in texts && u in ReadOf(t, at)
  {
    hide ReadOf;
    if texts != [] {
      ReadsOfIn(texts[1..], at, u);
      assert forall t :: t in texts <==> t == texts[0] || t in texts[1..];
    }
  }

  /** The text of a diff, whatever it adds and removes, passes exactly when nothing that is read of its added
      texts has a hit, nor any piece of a removed line or a heading that looks like an added line. */
  lemma VerdictIsAboutAddedTexts(files: seq<FileDiff>, patterns: seq<Pattern>)
    requires AllValid(files) && CleanHeads(files, IsBreak) && Feedless(Render(files))
    ensures Clean(patterns, PlusTexts(SplitLines(Translated(Raw(Render(files)))))) <==>
            && (forall t :: t in AllAdded(files) ==> Clean(patterns, ReadOf(t, IsBreak)))
            && Clean(patterns, DiffStrays(files, IsBreak))
  {
    GateReads(files);
    CleanReads(files, patterns);
    hide SplitLines, Translated, Raw, Render, PlusTexts, AllAdded, ReadOf, ReadsOf, DiffTexts, DiffStrays, ScanLine;
    forall u
      ensures u in DiffTexts(files, IsBreak) <==>
              u in ReadsOf(AllAdded(files), IsBreak) || u in DiffStrays(files, IsBreak)
    {
      DiffTextsIn(files, IsBreak, u);
    }
  }

  lemma CleanReads(files: seq<FileDiff>, patterns: seq<Pattern>)
    ensures Clean(patterns, ReadsOf(AllAdded(files), IsBreak)) <==>
            forall t :: t in AllAdded(files) ==> Clean(patterns, ReadOf(t, IsBreak))
  {
    hide ScanLine, ReadOf, ReadsOf, AllAdded;
    forall u
      ensures u in ReadsOf(AllAdded(files), IsBreak) <==> exists t :: t in AllAdded(files) && u in ReadOf(t, IsBreak)
    {
      ReadsOfIn(AllAdded(files), IsBreak, u);
    }
  }

  // ---------------------------------------------------------------- what passes unread

  lemma PlusTextsOne(line: string)
    ensures PlusTexts([line]) == if PlusLine(line) then [line[1..]] else []
  {
    assert [line][1..] == [];
    assert PlusTexts([]) == [];
    hide PlusLine;
  }

  /** An added text without a boundary is read as it is, or not at all if it opens with two plus signs. */
  lemma ReadUncut(text: string, at: char -> bool)
    requires Boundary(at) && Lacks(text, at)
    ensures ReadOf(text, at) == if Plain(text) then [text] else []
  {
    var line := ['+'] + text;
    assert Lacks(line, at);
    CutLacks(line, at);
    PlusLineOpens(text);
    hide Plain, Lacks, PlusTexts;
    assert PlusLine(line) <==> Plain(text);
    hide PlusLine;
    PlusTextsOne(line);
  }

  /** Of any added text its first piece is read, unless that opens with two plus signs, and of the pieces cut
      off it those that look like added lines. */
  lemma ReadCut(text: string, at: char -> bool)
    requires Boundary(at)
    ensures var head, rest := Cut(text, at)[0], Cut(text, at)[1..];
            ReadOf(text, at) == (if Plain(head) then [head] else []) + PlusTexts(rest)
  {
    var head, rest := Cut(text, at)[0], Cut(text, at)[1..];
    PlusIsNoBoundary(at);
    assert Lacks("+", at);
    CutPrefix("+", text, at);
    assert "+" + text == ['+'] + text && "+" + head == ['+'] + head;
    PlusLineOpens(head);
    hide Plain, Lacks, Cut, PlusTexts;
    assert PlusLine(['+'] + head) <==> Plain(head);
    hide PlusLine;
    PlusTextsConcat([['+'] + head], rest);
    PlusTextsOne(['+'] + head);
  }

  /** Without boundaries in added texts: the diff passes exactly when no plain added text has a hit, nor any
      stray piece. */
  lemma VerdictOnUncut(files: seq<FileDiff>, patterns: seq<Pattern>)
    requires AllValid(files) && CleanHeads(files, IsBreak) && Feedless(Render(files))
    requires AllLack(AllAdded(files), IsBreak)
    ensures Clean(patterns, PlusTexts(SplitLines(Translated(Raw(Render(files)))))) <==>
            && (forall t :: t in AllAdded(files) && Plain(t) ==> ScanLine(patterns, t) == [])
            && Clean(patterns, DiffStrays(files, IsBreak))
  {
    Boundaries();
    hide SplitLines, Translated, Raw, Render, PlusTexts, AllAdded, ScanLine, Plain, ReadOf, Boundary, DiffStrays;
    VerdictIsAboutAddedTexts(files, patterns);
    forall t | t in AllAdded(files)
      ensures Clean(patterns, ReadOf(t, IsBreak)) <==> (Plain(t) ==> ScanLine(patterns, t) == [])
    {
      var i :| 0 <= i < |AllAdded(files)| && AllAdded(files)[i] == t;
      hide Lacks;
      assert Lacks(AllAdded(files)[i], IsBreak);
      ReadUncut(t, IsBreak);
      assert t in [t];
    }
  }

  /** Such a diff gets the verdict promised, the one on its added texts themselves, exactly if it is not the
      case that all their hits are in texts opening with two plus signs, and no stray piece alone has one. */
  lemma VerdictKeepsPromiseIff(files: seq<FileDiff>, patterns: seq<Pattern>)
    requires AllValid(files) && CleanHeads(files, IsBreak) && Feedless(Render(files))
    requires AllLack(AllAdded(files), IsBreak)
    ensures (Clean(patterns, PlusTexts(SplitLines(Translated(Raw(Render(files))))))
             <==> Clean(patterns, AllAdded(files)))
            <==> ((exists t :: t in AllAdded(files) && ScanLine(patterns, t) != []) <==>
                   || !Clean(patterns, DiffStrays(files, IsBreak))
                   || exists t :: t in AllAdded(files) && Plain(t) && ScanLine(patterns, t) != [])
  {
    hide SplitLines, Translated, Raw, Render, PlusTexts, AllAdded, AllLack, ScanLine, Plain, DiffStrays;
    VerdictOnUncut(files, patterns);
  }

  /** A diff that adds only hidden texts passes, whatever they hide, if no stray piece has a hit. */
  lemma HiddenTextsPass(files: seq<FileDiff>, patterns: seq<Pattern>)
    requires AllValid(files) && CleanHeads(files, IsBreak) && Feedless(Render(files))
    requires forall t :: t in AllAdded(files) ==> Hidden(patterns, t)
    requires Clean(patterns, DiffStrays(files, IsBreak))
    ensures Clean(patterns, PlusTexts(SplitLines(Translated(Raw(Render(files))))))
  {
    Boundaries();
    hide SplitLines, Translated, Raw, Render, PlusTexts, AllAdded, ScanLine, ReadOf, Boundary, DiffStrays, Cut, Plain;
    VerdictIsAboutAddedTexts(files, patterns);
    forall t | t in AllAdded(files)
      ensures Clean(patterns, ReadOf(t, IsBreak))
    {
      ReadCut(t, IsBreak);
    }
  }

  /** The first piece opens with two plus signs or has no hit, and nothing behind it looks like an added line,
      whatever else it holds. */
  predicate Hidden(patterns: seq<Pattern>, text: string) {
    && (Plain(Cut(text, IsBreak)[0]) ==> ScanLine(patterns, Cut(text, IsBreak)[0]) == [])
    && PlusTexts(Cut(text, IsBreak)[1..]) == []
  }
}
