/** How a printed line reaches a parser: in one piece, or cut at the characters the parser's reading of
    git's output takes for line boundaries. */
module DiffCut {
  import opened Text
  import opened DiffParsers

  /** The boundaries at issue: none, for the lines as printed; the carriage return, which decoding turns
      into a line feed before the auditor splits; and the scanner's, which `splitlines` adds to. */
  predicate Never(c: char) {
    false
  }

  predicate IsReturn(c: char) {
    c == '\r'
  }

  /** Boundaries are none of the characters that git's own part of a line is made of. */
  ghost predicate Boundary(at: char -> bool) {
    forall c: char :: c == '\t' || ' ' <= c <= '~' ==> !at(c)
  }

  lemma Boundaries()
    ensures Boundary(Never) && Boundary(IsReturn) && Boundary(IsBreak)
  {
  }

  function CutAt(s: string, at: char -> bool): (pieces: seq<string>)
    ensures |pieces| >= 1
  {
    if s == "" then [""]
    else
      var more := CutAt(s[1..], at);
      if at(s[0]) then [""] + more else [[s[0]] + more[0]] + more[1..]
  }

  /** A return at the end of a line and the line feed after it are one boundary. */
  function DropReturn(s: string, at: char -> bool): string {
    if s != "" && s[|s| - 1] == '\r' && at('\r') then s[..|s| - 1] else s
  }

  /** What is read where one line was printed. */
  function Cut(line: string, at: char -> bool): (pieces: seq<string>)
    ensures |pieces| >= 1
  {
    CutAt(DropReturn(line, at), at)
  }

  function CutLines(lines: seq<string>, at: char -> bool): seq<string> {
    if lines == [] then [] else Cut(lines[0], at) + CutLines(lines[1..], at)
  }

  // ---------------------------------------------------------------- cutting and concatenation

  lemma {:induction false} CutAtPrefix(pre: string, s: string, at: char -> bool)
    requires Lacks(pre, at)
    ensures CutAt(pre + s, at) == [pre + CutAt(s, at)[0]] + CutAt(s, at)[1..]
  {
    hide CutAt;
    var pieces := CutAt(s, at);
    if pre == "" {
      assert pre + s == s && pre + pieces[0] == pieces[0];
      assert [pieces[0]] + pieces[1..] == pieces;
    } else {
      assert (pre + s)[0] == pre[0] && (pre + s)[1..] == pre[1..] + s;
      CutAtPrefix(pre[1..], s, at);
      CutAtStep(pre + s, at);
      assert [pre[0]] + (pre[1..] + pieces[0]) == pre + pieces[0];
    }
  }

  lemma FirstOf(c: char, x: seq<string>, y: seq<string>)
    requires x != []
    ensures [[c] + (x + y)[0]] + (x + y)[1..] == ([[c] + x[0]] + x[1..]) + y
  {
    assert (x + y)[1..] == x[1..] + y;
  }

  lemma {:induction false} CutAtConcat(a: string, c: char, b: string, at: char -> bool)
    requires at(c)
    ensures CutAt(a + [c] + b, at) == CutAt(a, at) + CutAt(b, at)
  {
    hide CutAt;
    var s := a + [c] + b;
    CutAtStep(s, at);
    if a == "" {
      CutAtLacks("", at);
      assert s[0] == c && s[1..] == b;
    } else {
      CutAtConcat(a[1..], c, b, at);
      CutAtStep(a, at);
      assert s[0] == a[0] && s[1..] == a[1..] + [c] + b;
      FirstOf(a[0], CutAt(a[1..], at), CutAt(b, at));
      assert [""] + (CutAt(a[1..], at) + CutAt(b, at)) == ([""] + CutAt(a[1..], at)) + CutAt(b, at);
    }
  }

  lemma CutAtStep(s: string, at: char -> bool)
    requires s != ""
    ensures var more := CutAt(s[1..], at);
            CutAt(s, at) == if at(s[0]) then [""] + more else [[s[0]] + more[0]] + more[1..]
  {
  }

  lemma CutAtLacks(s: string, at: char -> bool)
    requires Lacks(s, at)
    ensures CutAt(s, at) == [s]
  {
    CutAtPrefix(s, "", at);
    assert s + "" == s;
  }

  lemma {:induction false} PiecesLack(s: string, at: char -> bool)
    ensures forall p :: p in CutAt(s, at) ==> Lacks(p, at)
  {
    if s != "" {
      PiecesLack(s[1..], at);
      var more := CutAt(s[1..], at);
      assert Lacks(more[0], at);
    }
  }

  /** A line that opens without a boundary keeps that opening in its first piece. */
  lemma CutPrefix(pre: string, s: string, at: char -> bool)
    requires Lacks(pre, at)
    ensures Cut(pre + s, at) == [pre + Cut(s, at)[0]] + Cut(s, at)[1..]
  {
    CutAtPrefix(pre, DropReturn(s, at), at);
    if s == "" {
      assert pre + s == pre;
      assert DropReturn(pre, at) == pre;
    } else {
      assert (pre + s)[|pre + s| - 1] == s[|s| - 1];
      assert DropReturn(pre + s, at) == pre + DropReturn(s, at);
    }
  }

  lemma CutLacks(line: string, at: char -> bool)
    requires Lacks(line, at)
    ensures Cut(line, at) == [line]
  {
    CutAtLacks(line, at);
  }

  lemma {:induction false} CutLinesConcat(a: seq<string>, b: seq<string>, at: char -> bool)
    ensures CutLines(a + b, at) == CutLines(a, at) + CutLines(b, at)
  {
    if a == [] {
      assert a + b == b;
    } else {
      assert (a + b)[1..] == a[1..] + b;
      CutLinesConcat(a[1..], b, at);
    }
  }

  predicate AllLack(texts: seq<string>, at: char -> bool) {
    forall i :: 0 <= i < |texts| ==> Lacks(texts[i], at)
  }

  lemma {:induction false} CutLinesLack(lines: seq<string>, at: char -> bool)
    requires AllLack(lines, at)
    ensures CutLines(lines, at) == lines
  {
    if lines != [] {
      hide Lacks, Cut;
      CutLacks(lines[0], at);
      CutLinesLack(lines[1..], at);
      assert [lines[0]] + lines[1..] == lines;
    }
  }

  /** Nothing is cut where there are no boundaries. */
  lemma CutLinesNever(lines: seq<string>)
    ensures AllLack(lines, Never) && CutLines(lines, Never) == lines
  {
    CutLinesLack(lines, Never);
  }

  lemma CutLinesOne(line: string, at: char -> bool)
    ensures CutLines([line], at) == Cut(line, at)
  {
    assert [line][1..] == [];
  }

  lemma AllLackConcat(a: seq<string>, b: seq<string>, at: char -> bool)
    ensures AllLack(a + b, at) <==> AllLack(a, at) && AllLack(b, at)
  {
    hide Lacks;
    assert forall i :: 0 <= i < |a| ==> (a + b)[i] == a[i];
    assert forall i :: 0 <= i < |b| ==> (a + b)[|a| + i] == b[i];
  }

  /** No piece holds a boundary. */
  lemma {:induction false} CutLinesPieces(lines: seq<string>, at: char -> bool)
    ensures forall p :: p in CutLines(lines, at) ==> Lacks(p, at)
  {
    if lines != [] {
      PiecesLack(DropReturn(lines[0], at), at);
      CutLinesPieces(lines[1..], at);
      hide Lacks;
    }
  }

  // ---------------------------------------------------------------- git's output and its decoding

  /** The diff as git writes it: every line ends in a line feed. */
  function Raw(lines: seq<string>): string {
    if lines == [] then "" else lines[0] + ['\n'] + Raw(lines[1..])
  }

  /** A line's own part of the decoded text, without the line feed that ends it. */
  function Returned(s: string): string {
    seq(|s|, i requires 0 <= i < |s| => if s[i] == '\r' then '\n' else s[i])
  }

  lemma DropReturnCons(line: string)
    requires line != "" && line != "\r"
    ensures DropReturn(line, IsReturn) == [line[0]] + DropReturn(line[1..], IsReturn)
  {
    var tail := line[1..];
    if tail == "" {
      assert line == [line[0]];
    } else {
      assert tail[|tail| - 1] == line[|line| - 1];
      assert line[..|line| - 1] == [line[0]] + tail[..|tail| - 1];
      assert line == [line[0]] + tail;
    }
  }

  lemma TranslatedCons(line: string, more: string)
    requires line != "" && line != "\r" && '\n' !in line
    ensures Translated(line + ['\n'] + more) ==
            [if line[0] == '\r' then '\n' else line[0]] + Translated(line[1..] + ['\n'] + more)
  {
    var s := line + ['\n'] + more;
    assert s[0] == line[0] && s[1..] == line[1..] + ['\n'] + more;
    if line[0] == '\r' {
      assert |line| > 1 && s[1] == line[1];
    }
  }

  lemma TranslatedEnd(line: string, more: string)
    requires line == "" || line == "\r"
    ensures Translated(line + ['\n'] + more) == ['\n'] + Translated(more)
    ensures Returned(DropReturn(line, IsReturn)) == ""
  {
    var s := line + ['\n'] + more;
    if line == "" {
      assert s[1..] == more;
    } else {
      assert s[1] == '\n' && s[2..] == more;
    }
    assert Returned("") == "";
  }

  lemma ReturnedCons(c: char, s: string)
    ensures Returned([c] + s) == [if c == '\r' then '\n' else c] + Returned(s)
  {
  }

  lemma {:induction false} TranslatedLine(line: string, more: string)
    requires '\n' !in line
    ensures Translated(line + ['\n'] + more) == Returned(DropReturn(line, IsReturn)) + ['\n'] + Translated(more)
  {
    hide *;
    if line == "" || line == "\r" {
      TranslatedEnd(line, more);
    } else {
      TranslatedCons(line, more);
      TranslatedLine(line[1..], more);
      DropReturnCons(line);
      ReturnedCons(line[0], DropReturn(line[1..], IsReturn));
    }
  }

  /** Splitting a decoded line at line feeds cuts it at its returns. */
  lemma {:induction false} SplitReturned(s: string)
    requires '\n' !in s
    ensures Split(Returned(s), '\n') == CutAt(s, IsReturn)
  {
    var n := Find(s, '\r');
    if n == |s| {
      assert Returned(s) == s;
      SplitParts(s, '\n');
      hide Split;
      CutAtLacks(s, IsReturn);
    } else {
      var a, b := s[..n], s[n + 1..];
      assert s == a + ['\r'] + b;
      assert Returned(s) == a + ['\n'] + Returned(b);
      SplitParts(a, '\n');
      SplitConcat(a, '\n', Returned(b));
      SplitReturned(b);
      hide Split, Returned, CutAt, Find;
      CutAtConcat(a, '\r', b, IsReturn);
      CutAtLacks(a, IsReturn);
    }
  }

  /** What the auditor reads: the printed lines cut at returns, and one empty line at the end. */
  lemma {:induction false} SplitRaw(lines: seq<string>)
    requires forall l :: l in lines ==> '\n' !in l
    ensures Split(Translated(Raw(lines)), '\n') == CutLines(lines, IsReturn) + [""]
  {
    if lines == [] {
      SplitParts("", '\n');
    } else {
      var line, rest := lines[0], lines[1..];
      var kept := DropReturn(line, IsReturn);
      assert line in lines;
      SplitRaw(rest);
      TranslatedLine(line, Raw(rest));
      SplitReturned(kept);
      hide Split, Translated, Returned, CutAt;
      SplitConcat(Returned(kept), '\n', Translated(Raw(rest)));
      assert CutLines(lines, IsReturn) + [""] == CutAt(kept, IsReturn) + (CutLines(rest, IsReturn) + [""]);
    }
  }

  lemma SplitLinesStep(line: string, c: char, more: string)
    requires Lacks(line, IsBreak) && IsBreak(c) && c != '\r'
    ensures SplitLines(line + [c] + more) == [line] + SplitLines(more)
  {
    hide IsBreak;
    var s := line + [c] + more;
    assert s[|line|] == c;
    assert forall k :: 0 <= k < |line| ==> s[k] == line[k];
    assert FindBreak(s) == |line| by { hide SplitLines; }
    assert s[..|line|] == line;
    assert s[|line| + 1..] == more;
  }

  /** `splitlines` cuts a decoded line at every boundary that was in it. */
  lemma {:induction false} SplitLinesReturned(s: string, more: string)
    requires '\n' !in s
    ensures SplitLines(Returned(s) + ['\n'] + more) == CutAt(s, IsBreak) + SplitLines(more)
    decreases |s|
  {
    hide SplitLines;
    var n := FindBreak(s);
    if n == |s| {
      assert Lacks(s, IsBreak) && Returned(s) == s by { assert IsBreak('\r'); }
      CutAtLacks(s, IsBreak);
      SplitLinesStep(s, '\n', more);
    } else {
      var a, c, b := s[..n], s[n], s[n + 1..];
      var c' := if c == '\r' then '\n' else c;
      assert s == a + [c] + b;
      assert Lacks(a, IsBreak);
      assert IsBreak('\r') && IsBreak(c) && IsBreak(c') && c' != '\r';
      assert forall i :: 0 <= i < n ==> s[i] != '\r';
      hide CutAt, FindBreak, IsBreak, Lacks;
      assert Returned(s) == a + [c'] + Returned(b);
      hide Returned;
      assert Returned(s) + ['\n'] + more == a + [c'] + (Returned(b) + ['\n'] + more);
      SplitLinesReturned(b, more);
      SplitLinesStep(a, c', Returned(b) + ['\n'] + more);
      CutAtConcat(a, c, b, IsBreak);
      CutAtLacks(a, IsBreak);
    }
  }

  /** What the scanner reads: the printed lines cut at all of its boundaries. */
  lemma {:induction false} SplitLinesRaw(lines: seq<string>)
    requires forall l :: l in lines ==> '\n' !in l
    ensures SplitLines(Translated(Raw(lines))) == CutLines(lines, IsBreak)
  {
    if lines != [] {
      var line, rest := lines[0], lines[1..];
      var kept := DropReturn(line, IsReturn);
      assert kept == DropReturn(line, IsBreak);
      assert line in lines;
      SplitLinesRaw(rest);
      TranslatedLine(line, Raw(rest));
      SplitLinesReturned(kept, Translated(Raw(rest)));
      hide SplitLines, Translated, Returned, CutAt;
    }
  }
}
