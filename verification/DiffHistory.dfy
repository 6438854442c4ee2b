/** What each parser returns for any lines whatever, read off the lines alone: the file last named, the number
    last opened and the lines counted since then. */
module DiffHistory {
  import opened Text
  import opened DiffParsers

  /** The line ends the section of the file named before it; only the auditor looks at git's own header. */
  predicate EndsFile(line: string, scan: bool) {
    "+++ " <= line || (!scan && "diff --git" <= line)
  }

  /** The number at which the line makes the count start again. */
  function Opens(line: string, scan: bool): Option<nat> {
    if !scan then HunkStart(line)
    else if "@@" <= line then Some(PlusNumber(line).GetOr(0))
    else None
  }

  predicate Counts(line: string, scan: bool) {
    if scan then !("-" <= line) && !("@@" <= line) && !("+++ " <= line) else "+" <= line && !("+++" <= line)
  }

  /** Before line `n` the file last named is `p`. */
  ghost predicate FileAt(lines: seq<string>, n: int, p: string, scan: bool) {
    exists i :: i < n && NamedSince(lines, i, n, p, scan)
  }

  ghost predicate NamedSince(lines: seq<string>, i: int, n: int, p: string, scan: bool) {
    0 <= i < |lines| && lines[i] == "+++ b/" + p && forall j :: i < j < n && j < |lines| ==> !EndsFile(lines[j], scan)
  }

  /** Before line `n` the count stands at `v`: what was opened last, or nought, and the lines counted since. */
  ghost predicate NumberAt(lines: seq<string>, n: int, v: nat, scan: bool) {
    exists i :: -1 <= i < n && OpenSince(lines, i, n, v, scan)
  }

  ghost predicate OpenSince(lines: seq<string>, i: int, n: int, v: nat, scan: bool) {
    && (i == -1 || (0 <= i < |lines| && Opens(lines[i], scan).Some?)) && NoneOpens(lines, i + 1, n, scan)
    && v == (if i == -1 then 0 else Opens(lines[i], scan).value) + |Counted(lines, i + 1, n, scan)|
  }

  ghost predicate NoneOpens(lines: seq<string>, from: int, to: int, scan: bool) {
    forall j :: from <= j < to && 0 <= j < |lines| ==> Opens(lines[j], scan).None?
  }

  function Counted(lines: seq<string>, from: int, to: int, scan: bool): set<int> {
    set k: int | from <= k < to && 0 <= k < |lines| && Counts(lines[k], scan)
  }

  /** Line `k` is one more record: a plus sign and a text, under the file and at the number that stand. */
  ghost predicate RecordAt(lines: seq<string>, k: int, path: Option<string>, v: nat, text: string, scan: bool) {
    && 0 <= k < |lines| && lines[k] == "+" + text && !("++" <= text)
    && NumberAt(lines, k, v, scan) && forall p :: path == Some(p) <==> FileAt(lines, k, p, scan)
  }

  // ---------------------------------------------------------------- one line more

  lemma FileNext(lines: seq<string>, n: nat, p: string, scan: bool)
    requires n < |lines|
    ensures FileAt(lines, n + 1, p, scan) <==>
            lines[n] == "+++ b/" + p || (FileAt(lines, n, p, scan) && !EndsFile(lines[n], scan))
  {
    hide EndsFile;
    if lines[n] == "+++ b/" + p {
      assert NamedSince(lines, n, n + 1, p, scan);
    }
    if FileAt(lines, n + 1, p, scan) {
      var i :| i < n + 1 && NamedSince(lines, i, n + 1, p, scan);
      assert i == n || NamedSince(lines, i, n, p, scan);
    }
    if FileAt(lines, n, p, scan) {
      var i :| i < n && NamedSince(lines, i, n, p, scan);
      assert NamedSince(lines, i, n + 1, p, scan) <==> !EndsFile(lines[n], scan);
    }
  }

  lemma CountedNext(lines: seq<string>, from: int, n: nat, scan: bool)
    requires from <= n < |lines|
    ensures Counted(lines, from, n + 1, scan) ==
            Counted(lines, from, n, scan) + if Counts(lines[n], scan) then {n} else {}
    ensures |Counted(lines, from, n + 1, scan)| ==
            |Counted(lines, from, n, scan)| + if Counts(lines[n], scan) then 1 else 0
    ensures Counted(lines, from, from, scan) == {}
  {
    hide Counts;
    var now := Counted(lines, from, n, scan);
    assert n !in now;
    assert Counted(lines, from, n + 1, scan) == now + if Counts(lines[n], scan) then {n} else {};
  }

  lemma NumberNext(lines: seq<string>, n: nat, v: nat, scan: bool)
    requires n < |lines| && NumberAt(lines, n, v, scan)
    ensures var v' := match Opens(lines[n], scan)
                      case Some(m) => m
                      case None => v + if Counts(lines[n], scan) then 1 else 0;
            NumberAt(lines, n + 1, v', scan)
  {
    hide Opens, Counts;
    if Opens(lines[n], scan).Some? {
      CountedNext(lines, n, n, scan);
      NothingCounted(lines, n + 1, scan);
      assert OpenSince(lines, n, n + 1, Opens(lines[n], scan).value, scan);
    } else {
      var i :| -1 <= i < n && OpenSince(lines, i, n, v, scan);
      CountedNext(lines, i + 1, n, scan);
      assert OpenSince(lines, i, n + 1, v + if Counts(lines[n], scan) then 1 else 0, scan);
    }
  }

  lemma NothingCounted(lines: seq<string>, n: int, scan: bool)
    ensures Counted(lines, n, n, scan) == {}
  {
  }

  lemma NumberUnique(lines: seq<string>, n: nat, v: nat, w: nat, scan: bool)
    requires n <= |lines| && NumberAt(lines, n, v, scan) && NumberAt(lines, n, w, scan)
    ensures v == w
  {
    hide Opens, Counted;
    var i :| -1 <= i < n && OpenSince(lines, i, n, v, scan);
    var j :| -1 <= j < n && OpenSince(lines, j, n, w, scan);
    assert i == j;
  }

  // ---------------------------------------------------------------- the two parsers

  lemma {:induction false} AuditAt(lines: seq<string>, n: nat)
    requires n <= |lines|
    ensures var st := AuditRun(AUDIT_START, lines[..n]);
            && (forall p :: st.file == Some(p) <==> FileAt(lines, n, p, false))
            && NumberAt(lines, n, st.newLine, false)
  {
    if n == 0 {
      assert lines[..0] == [];
      NothingCounted(lines, 0, false);
      assert OpenSince(lines, -1, 0, 0, false);
    } else {
      var m := n - 1;
      AuditAt(lines, m);
      var st := AuditRun(AUDIT_START, lines[..m]);
      AuditNext(lines, m);
      AuditFile(st, lines[m]);
      AuditNumber(st, lines[m]);
      NumberNext(lines, m, st.newLine, false);
      forall p
        ensures FileAt(lines, n, p, false) <==>
                lines[m] == "+++ b/" + p || (FileAt(lines, m, p, false) && !EndsFile(lines[m], false))
      {
        FileNext(lines, m, p, false);
      }
      hide AuditRun, AuditStep, FileAt, NumberAt, EndsFile, Opens, Counts;
    }
  }

  lemma AuditNext(lines: seq<string>, n: nat)
    requires n < |lines|
    ensures AuditRun(AUDIT_START, lines[..n + 1]) == AuditStep(AuditRun(AUDIT_START, lines[..n]), lines[n])
  {
    hide AuditStep;
    assert lines[..n + 1] == lines[..n] + [lines[n]];
    AuditRunConcat(AUDIT_START, lines[..n], [lines[n]]);
    assert [lines[n]][1..] == [];
  }

  lemma AuditFile(st: AuditState, line: string)
    ensures forall p :: AuditStep(st, line).file == Some(p) <==>
              line == "+++ b/" + p || (st.file == Some(p) && !EndsFile(line, false))
  {
    hide HunkStart;
    forall p
      ensures AuditStep(st, line).file == Some(p) <==>
              line == "+++ b/" + p || (st.file == Some(p) && !EndsFile(line, false))
    {
      NamesFile(line, p);
    }
  }

  lemma NamesFile(line: string, p: string)
    ensures line == "+++ b/" + p <==> "+++ b/" <= line && line[6..] == p
    ensures "+++ b/" <= line ==> "+++ " <= line && !("diff --git" <= line)
  {
    if "+++ b/" <= line {
      assert line[0] == '+';
    }
  }

  lemma FirstChar(line: string)
    ensures HunkStart(line).Some? ==> line != "" && line[0] == '@'
    ensures "diff --git" <= line ==> line != "" && line[0] == 'd'
    ensures "+++ " <= line || "+++ b/" <= line || "+" <= line ==> line != "" && line[0] == '+'
    ensures "+++ b/" <= line ==> "+++ " <= line
    ensures "+++ " <= line ==> "+++" <= line
    ensures "@@" <= line ==> line != "" && line[0] == '@'
    ensures "-" <= line ==> line != "" && line[0] == '-'
  {
    assert "@@ -" <= line ==> line[0] == '@';
  }

  lemma AuditNumber(st: AuditState, line: string)
    ensures AuditStep(st, line).newLine ==
            match Opens(line, false)
            case Some(m) => m
            case None => st.newLine + if Counts(line, false) then 1 else 0
  {
    FirstChar(line);
    hide HunkStart;
  }

  lemma {:induction false} ScanAt(lines: seq<string>, n: nat)
    requires n <= |lines|
    ensures var st := ScanRun(SCAN_START, lines[..n]);
            && (forall p :: st.path == Some(p) <==> FileAt(lines, n, p, true))
            && NumberAt(lines, n, st.newNo, true)
  {
    if n == 0 {
      assert lines[..0] == [];
      NothingCounted(lines, 0, true);
      assert OpenSince(lines, -1, 0, 0, true);
    } else {
      var m := n - 1;
      ScanAt(lines, m);
      var st := ScanRun(SCAN_START, lines[..m]);
      ScanNext(lines, m);
      ScanFile(st, lines[m]);
      ScanNumber(st, lines[m]);
      NumberNext(lines, m, st.newNo, true);
      forall p
        ensures FileAt(lines, n, p, true) <==>
                lines[m] == "+++ b/" + p || (FileAt(lines, m, p, true) && !EndsFile(lines[m], true))
      {
        FileNext(lines, m, p, true);
      }
      hide ScanRun, ScanStep, FileAt, NumberAt, EndsFile, Opens, Counts;
    }
  }

  lemma ScanNext(lines: seq<string>, n: nat)
    requires n < |lines|
    ensures ScanRun(SCAN_START, lines[..n + 1]) == ScanStep(ScanRun(SCAN_START, lines[..n]), lines[n])
  {
    hide ScanStep;
    assert lines[..n + 1] == lines[..n] + [lines[n]];
    ScanRunConcat(SCAN_START, lines[..n], [lines[n]]);
    assert [lines[n]][1..] == [];
  }

  lemma ScanFile(st: ScanState, line: string)
    ensures forall p :: ScanStep(st, line).path == Some(p) <==>
              line == "+++ b/" + p || (st.path == Some(p) && !EndsFile(line, true))
  {
    hide PlusNumber;
    forall p
      ensures ScanStep(st, line).path == Some(p) <==>
              line == "+++ b/" + p || (st.path == Some(p) && !EndsFile(line, true))
    {
      NamesFile(line, p);
    }
  }

  lemma ScanNumber(st: ScanState, line: string)
    ensures ScanStep(st, line).newNo ==
            match Opens(line, true)
            case Some(m) => m
            case None => st.newNo + if Counts(line, true) then 1 else 0
  {
    FirstChar(line);
    hide PlusNumber;
  }

  // ---------------------------------------------------------------- the records of any lines

  lemma RecordLine(line: string, text: string)
    ensures line == "+" + text && !("++" <= text) <==> "+" <= line && !("+++" <= line) && line[1..] == text
  {
    if "+" <= line && line[1..] == text {
      assert line == "+" + text;
    }
    if line == "+" + text {
      assert "++" <= text <==> "+++" <= line by {
        if "++" <= text { assert text[0] == '+' && text[1] == '+'; }
        if "+++" <= line { assert line[1] == '+' && line[2] == '+'; }
      }
    }
  }

  lemma RecordIsAdded(lines: seq<string>, n: nat, path: Option<string>, v: nat, text: string, scan: bool,
                      file: Option<string>, number: nat)
    requires n < |lines| && NumberAt(lines, n, number, scan)
    requires forall p :: file == Some(p) <==> FileAt(lines, n, p, scan)
    ensures RecordAt(lines, n, path, v, text, scan) <==> Adds(lines[n], text) && path == file && v == number
  {
    RecordLine(lines[n], text);
    SamePath(path, file, lines, n, scan);
    hide NumberAt, FileAt;
    if NumberAt(lines, n, v, scan) {
      NumberUnique(lines, n, v, number, scan);
    }
  }

  /** The scanner's result on any lines: exactly the added texts, each under the file last named, if any, and
      at the number last opened moved on by the lines counted since. */
  lemma {:induction false} ScanRecordIff(lines: seq<string>, n: nat, y: Yielded)
    requires n <= |lines|
    ensures y in ScanRun(SCAN_START, lines[..n]).out <==>
            exists k :: k < n && RecordAt(lines, k, y.path, y.line, y.text, true)
  {
    if n == 0 {
      assert lines[..0] == [];
    } else {
      var m := n - 1;
      ScanRecordIff(lines, m, y);
      ScanNext(lines, m);
      ScanAt(lines, m);
      var st := ScanRun(SCAN_START, lines[..m]);
      ScanAdds(st, lines[m], y);
      RecordIsAdded(lines, m, y.path, y.line, y.text, true, st.path, st.newNo);
      hide ScanRun, ScanStep, FileAt, NumberAt, RecordAt, Adds;
    }
  }

  predicate Adds(line: string, text: string) {
    "+" <= line && !("+++" <= line) && line[1..] == text
  }

  lemma SamePath(a: Option<string>, b: Option<string>, lines: seq<string>, n: int, scan: bool)
    requires forall p :: b == Some(p) <==> FileAt(lines, n, p, scan)
    ensures (forall p :: a == Some(p) <==> FileAt(lines, n, p, scan)) <==> a == b
  {
    hide FileAt;
    if forall p :: a == Some(p) <==> FileAt(lines, n, p, scan) {
      if a.Some? {
        assert FileAt(lines, n, a.value, scan);
      } else if b.Some? {
        assert FileAt(lines, n, b.value, scan);
      }
    }
  }

  lemma ScanAdds(st: ScanState, line: string, y: Yielded)
    ensures y in ScanStep(st, line).out <==>
            y in st.out || (Adds(line, y.text) && y.path == st.path && y.line == st.newNo)
  {
    FirstChar(line);
    hide PlusNumber;
  }

  /** The auditor's, on any lines: the same of the lines added under a file with a name, a new file's header
      and its own count deciding. */
  lemma {:induction false} AuditRecordIff(lines: seq<string>, n: nat, a: Added)
    requires n <= |lines|
    ensures a in AuditRun(AUDIT_START, lines[..n]).added <==>
            a.file != "" && exists k :: k < n && RecordAt(lines, k, Some(a.file), a.line, a.text, false)
  {
    if n == 0 {
      assert lines[..0] == [];
    } else {
      var m := n - 1;
      AuditRecordIff(lines, m, a);
      AuditNext(lines, m);
      AuditAt(lines, m);
      var st := AuditRun(AUDIT_START, lines[..m]);
      AuditAdds(st, lines[m], a);
      RecordIsAdded(lines, m, Some(a.file), a.line, a.text, false, st.file, st.newLine);
      hide AuditRun, AuditStep, FileAt, NumberAt, RecordAt, Adds;
    }
  }

  lemma AuditAdds(st: AuditState, line: string, a: Added)
    ensures a in AuditStep(st, line).added <==>
            || a in st.added
            || (Adds(line, a.text) && Some(a.file) == st.file && a.file != "" && a.line == st.newLine)
  {
    FirstChar(line);
    hide HunkStart;
  }
}
