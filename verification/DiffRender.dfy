/** Zero-context unified diffs as git prints them, and the records that should come back.

    A file's change is an edit script over its lines. The script fixes the new file, the printed hunks
    and one record per added line. */
module DiffRender {
  import opened Text
  import opened DiffParsers

  /** `oldNoEol` and `newNoEol` say that a side's last line has no line feed, `section` is what git shows
      behind the hunk's ranges. */
  datatype Edit =
    | Keep(text: string)
    | Change(removed: seq<string>, oldNoEol: bool, added: seq<string>, newNoEol: bool, section: string)

  /** `path` is the new file's name, None where the file is deleted; `quoted` says that git prints the name
      in quotes, as it does for every name with a special character, and `unnamed` what the header then shows,
      or /dev/null. */
  datatype FileDiff = FileDiff(title: string, meta: seq<string>, oldName: string,
                               path: Option<string>, quoted: bool, unnamed: string, edits: seq<Edit>)

  // ---------------------------------------------------------------- the new file

  function NewFile(edits: seq<Edit>): seq<string> {
    if edits == [] then []
    else (match edits[0] case Keep(t) => [t] case Change(_, _, added, _, _) => added) + NewFile(edits[1..])
  }

  /** The lines both files share. */
  function Kept(edits: seq<Edit>): seq<string> {
    if edits == [] then []
    else (match edits[0] case Keep(t) => [t] case Change(_, _, _, _, _) => []) + Kept(edits[1..])
  }

  // ---------------------------------------------------------------- the printed diff

  function Prefixed(mark: char, texts: seq<string>): seq<string> {
    if texts == [] then [] else [[mark] + texts[0]] + Prefixed(mark, texts[1..])
  }

  /** Start and count of a hunk side: an empty side names the line before it, a count of one is left out. */
  function Start(pos: nat, count: nat): nat {
    if count == 0 then pos else pos + 1
  }

  function Count(count: nat): string {
    if count == 1 then "" else "," + Decimal(count)
  }

  function Range(oldPos: nat, newPos: nat, e: Edit): string
    requires e.Change?
  {
    "@@ -" + Decimal(Start(oldPos, |e.removed|)) + Count(|e.removed|)
    + " +" + Decimal(Start(newPos, |e.added|)) + Count(|e.added|) + " @@"
  }

  function Marker(present: bool): seq<string> {
    if present then ["\\ No newline at end of file"] else []
  }

  function HunkBody(e: Edit): seq<string>
    requires e.Change?
  {
    Prefixed('-', e.removed)
    + (Marker(e.oldNoEol && e.removed != [])
    + (Prefixed('+', e.added)
    + Marker(e.newNoEol && e.added != [])))
  }

  function Hunk(oldPos: nat, newPos: nat, e: Edit): seq<string>
    requires e.Change?
  {
    [Range(oldPos, newPos, e) + e.section] + HunkBody(e)
  }

  function Hunks(oldPos: nat, newPos: nat, edits: seq<Edit>): seq<string>
    decreases edits
  {
    if edits == [] then []
    else match edits[0]
      case Keep(_) => Hunks(oldPos + 1, newPos + 1, edits[1..])
      case Change(removed, _, added, _, _) =>
        Hunk(oldPos, newPos, edits[0]) + Hunks(oldPos + |removed|, newPos + |added|, edits[1..])
  }

  /** A tab follows a name that holds a space. */
  function Shown(path: string): string {
    if ' ' in path then path + "\t" else path
  }

  predicate PlainlyNamed(f: FileDiff) {
    f.path.Some? && !f.quoted
  }

  function NewName(f: FileDiff): string {
    if PlainlyNamed(f) then "+++ b/" + Shown(f.path.value) else "+++ " + f.unnamed
  }

  function Names(f: FileDiff): seq<string> {
    if exists i :: 0 <= i < |f.edits| && f.edits[i].Change?
    then ["--- " + f.oldName, NewName(f)] else []
  }

  function RenderFile(f: FileDiff): seq<string> {
    ["diff --git " + f.title] + (f.meta + (Names(f) + Hunks(0, 0, f.edits)))
  }

  function Render(files: seq<FileDiff>): seq<string> {
    if files == [] then [] else RenderFile(files[0]) + Render(files[1..])
  }

  /** Extended header lines (index, mode, rename, binary) open with neither `+` nor `@`; a name that is
      not a plain path does not open like one. */
  predicate Valid(f: FileDiff) {
    && (forall i :: 0 <= i < |f.meta| ==> !("+" <= f.meta[i]) && !("@" <= f.meta[i]))
    && (!PlainlyNamed(f) ==> !("b/" <= f.unnamed))
  }

  // ---------------------------------------------------------------- what should come back

  function Numbered(path: Option<string>, texts: seq<string>, line: nat): seq<Yielded> {
    if texts == [] then [] else [Yielded(path, line, texts[0])] + Numbered(path, texts[1..], line + 1)
  }

  /** One record per added line, in order. */
  function FileRecords(path: Option<string>, edits: seq<Edit>, pos: nat): seq<Yielded>
    decreases |edits|
  {
    if edits == [] then []
    else match edits[0]
      case Keep(_) => FileRecords(path, edits[1..], pos + 1)
      case Change(_, _, added, _, _) =>
        Numbered(path, added, pos + 1) + FileRecords(path, edits[1..], pos + |added|)
  }

  function Records(files: seq<FileDiff>): seq<Yielded> {
    if files == [] then [] else FileRecords(files[0].path, files[0].edits, 0) + Records(files[1..])
  }

  function AddedOf(edits: seq<Edit>): seq<string> {
    if edits == [] then [] else (if edits[0].Change? then edits[0].added else []) + AddedOf(edits[1..])
  }

  /** The added texts of a diff. */
  function AllAdded(files: seq<FileDiff>): seq<string> {
    if files == [] then [] else AddedOf(files[0].edits) + AllAdded(files[1..])
  }

  predicate AllValid(files: seq<FileDiff>) {
    forall i :: 0 <= i < |files| ==> Valid(files[i])
  }

  // ---------------------------------------------------------------- hunk headers

  /** One side's range: the first line and how many, the count left out where it is one; for none, the line
      before and nought. */
  function Side(pos: nat, count: nat): string {
    match count
    case 0 => Decimal(pos) + ",0"
    case 1 => Decimal(pos + 1)
    case _ => Decimal(pos + 1) + "," + Decimal(count)
  }

  lemma SideIs(pos: nat, count: nat)
    ensures Decimal(Start(pos, count)) + Count(count) == Side(pos, count)
  {
    ZeroPrints();
    hide Decimal;
  }

  lemma RangeSides(oldPos: nat, newPos: nat, e: Edit)
    requires e.Change?
    ensures Range(oldPos, newPos, e) == "@@ -" + Side(oldPos, |e.removed|) + " +" + Side(newPos, |e.added|) + " @@"
  {
    SideIs(oldPos, |e.removed|);
    SideIs(newPos, |e.added|);
    hide Decimal, Start, Count, Side;
  }

  lemma ZeroPrints()
    ensures Decimal(0) == "0"
  {
  }

  /** Whatever follows the ranges. */
  lemma HeaderStartsHunk(oldPos: nat, newPos: nat, e: Edit, section: string)
    requires e.Change?
    ensures HunkStart(Range(oldPos, newPos, e) + section) == Some(Start(newPos, |e.added|))
  {
    var a, c := Decimal(Start(oldPos, |e.removed|)), Decimal(Start(newPos, |e.added|));
    DecimalRoundTrip(Start(oldPos, |e.removed|));
    DecimalRoundTrip(Start(newPos, |e.added|));
    CountIsOptional(|e.removed|);
    CountIsOptional(|e.added|);
    var b, d := Count(|e.removed|), Count(|e.added|);
    HunkStartOf(Range(oldPos, newPos, e) + section, a, b, c, d, section);
  }

  lemma HunkOpens(line: string)
    ensures HunkStart(line).Some? ==> "@@" <= line
  {
  }

  lemma HeaderNumber(oldPos: nat, newPos: nat, e: Edit, section: string)
    requires e.Change?
    ensures PlusNumber(Range(oldPos, newPos, e) + section) == Some(Start(newPos, |e.added|))
  {
    var a, c := Decimal(Start(oldPos, |e.removed|)), Decimal(Start(newPos, |e.added|));
    var pre := "@@ -" + a + Count(|e.removed|) + " ";
    var tail := Count(|e.added|) + " @@" + section;
    DecimalRoundTrip(Start(oldPos, |e.removed|));
    DecimalRoundTrip(Start(newPos, |e.added|));
    CountIsOptional(|e.removed|);
    CountIsOptional(|e.added|);
    assert forall i :: 0 <= i < |a| ==> a[i] != '+';
    assert Range(oldPos, newPos, e) + section == pre + ("+" + (c + tail));
    PlusNumberAfter(pre, "+" + (c + tail));
    PlusNumberHere(c, tail);
  }

  lemma PlusNumberHere(c: string, tail: string)
    requires Number(c) && tail != "" && !IsDigit(tail[0])
    ensures PlusNumber("+" + (c + tail)) == Some(NatValue(c))
  {
    assert ("+" + (c + tail))[1..] == c + tail;
    DigitRunOf(c, tail);
    assert (c + tail)[..|c|] == c;
  }

  lemma CountIsOptional(n: nat)
    ensures OptionalCount(Count(n)) && '+' !in Count(n)
    ensures var c := Count(n); c == "" || c[0] == ','
  {
    DecimalRoundTrip(n);
    if n != 1 {
      assert Count(n)[1..] == Decimal(n);
    }
  }

  lemma {:induction false} PlusNumberAfter(pre: string, s: string)
    requires '+' !in pre
    ensures PlusNumber(pre + s) == PlusNumber(s)
  {
    if pre == "" {
      assert pre + s == s;
    } else {
      assert pre[0] in pre;
      assert (pre + s)[1..] == pre[1..] + s;
      PlusNumberAfter(pre[1..], s);
    }
  }
}
