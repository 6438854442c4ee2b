/** Question normalisation and the surface perturbations it must absorb, over ASCII text. */
module Normalize {
  type Ascii = c: char | c as int < 128
  type Text = seq<Ascii>

  predicate IsUpper(c: Ascii) { 'A' <= c <= 'Z' }
  predicate IsLower(c: Ascii) { 'a' <= c <= 'z' }
  predicate IsLetter(c: Ascii) { IsUpper(c) || IsLower(c) }
  predicate IsAlnum(c: Ascii) { IsLetter(c) || '0' <= c <= '9' }

  function ToLower(c: Ascii): Ascii {
    if IsUpper(c) then (c as int + 32) as char else c
  }

  function ToUpper(c: Ascii): Ascii {
    if IsLower(c) then (c as int - 32) as char else c
  }

  // ---------------------------------------------------------------- the perturbations

  datatype Op = Upper | Lower | Title | Pad | TrailingSpace | StripQmark

  function LowerAll(q: Text): Text {
    seq(|q|, i requires 0 <= i < |q| => ToLower(q[i]))
  }

  function UpperAll(q: Text): Text {
    seq(|q|, i requires 0 <= i < |q| => ToUpper(q[i]))
  }

  /** `str.title`: a letter after a letter is lowered, any other letter is raised. */
  function TitleAll(q: Text): Text {
    seq(|q|, i requires 0 <= i < |q| => if i > 0 && IsLetter(q[i - 1]) then ToLower(q[i]) else ToUpper(q[i]))
  }

  function RStripQmark(q: Text): (r: Text)
    ensures |r| <= |q|
  {
    if q != [] && q[|q| - 1] == '?' then RStripQmark(q[..|q| - 1]) else q
  }

  function Apply(op: Op, q: Text): Text {
    match op
    case Upper => UpperAll(q)
    case Lower => LowerAll(q)
    case Title => TitleAll(q)
    case Pad => [' ', ' '] + q + [' ', ' ']
    case TrailingSpace => q + [' ']
    case StripQmark => RStripQmark(q)
  }

  function ApplyAll(ops: seq<Op>, q: Text): Text
    decreases |ops|
  {
    if ops == [] then q else ApplyAll(ops[1..], Apply(ops[0], q))
  }

  /** The body of the stability check: perturb op by op, then compare the two answers. */
  method Check(responder: Text -> string, base: Text, ops: seq<Op>) returns (failed: bool)
    ensures failed <==> responder(ApplyAll(ops, base)) != responder(base)
  {
    var expected := responder(base);
    var perturbed := base;
    for i := 0 to |ops|
      invariant ApplyAll(ops[i..], perturbed) == ApplyAll(ops, base)
    {
      assert ops[i..][1..] == ops[i + 1..];
      perturbed := Apply(ops[i], perturbed);
    }
    failed := responder(perturbed) != expected;
  }

  // ---------------------------------------------------------------- normalisation

  function Blank(q: Text): Text {
    seq(|q|, i requires 0 <= i < |q| => if IsAlnum(q[i]) then q[i] else ' ')
  }

  /** Length of the prefix before the first space. */
  function WordLength(s: Text): (n: nat)
    ensures n <= |s| && forall k :: 0 <= k < n ==> s[k] != ' '
    ensures n < |s| ==> s[n] == ' '
  {
    if s == [] || s[0] == ' ' then 0
    else
      assert forall i :: 0 < i < |s| ==> s[i] == s[1..][i - 1];
      1 + WordLength(s[1..])
  }

  /** `s.split()` for a text whose only whitespace is the space, gathered into a set. */
  function Words(s: Text): set<Text>
    decreases |s|
  {
    if s == [] then {}
    else if s[0] == ' ' then Words(s[1..])
    else {s[..WordLength(s)]} + Words(s[WordLength(s)..])
  }

  /** `_normalize`. */
  function Tokens(q: Text): set<Text> {
    Words(Blank(LowerAll(q)))
  }

  function RespondStable(q: Text): string {
    if {"capital", "france"} <= Tokens(q) then "Paris" else "unknown"
  }

  function RespondVolatile(q: Text): string {
    if |q| % 2 == 0 then "Paris" else "Lyon"
  }

  // ---------------------------------------------------------------- what the tokens are

  /** Positions `i` to `j` bound a maximal stretch without spaces. */
  predicate IsWord(s: Text, i: nat, j: nat) {
    && i < j <= |s|
    && (forall k :: i <= k < j ==> s[k] != ' ')
    && (i == 0 || s[i - 1] == ' ') && (j == |s| || s[j] == ' ')
  }

  ghost predicate HasWord(s: Text, t: Text) {
    exists i: nat, j: nat :: IsWord(s, i, j) && s[i..j] == t
  }

  lemma SkipSpace(s: Text, t: Text)
    requires s != [] && s[0] == ' '
    ensures HasWord(s, t) <==> HasWord(s[1..], t)
  {
    if HasWord(s, t) {
      var i: nat, j: nat :| IsWord(s, i, j) && s[i..j] == t;
      assert i > 0;
      AfterSpace(s, i - 1, j - 1);
    }
    if HasWord(s[1..], t) {
      var i: nat, j: nat :| IsWord(s[1..], i, j) && s[1..][i..j] == t;
      AfterSpace(s, i, j);
    }
  }

  lemma AfterSpace(s: Text, i: nat, j: nat)
    requires s != [] && s[0] == ' '
    ensures IsWord(s[1..], i, j) <==> IsWord(s, i + 1, j + 1)
    ensures IsWord(s[1..], i, j) ==> s[1..][i..j] == s[i + 1..j + 1]
  {
    var rest := s[1..];
    assert forall k :: 0 <= k < |rest| ==> rest[k] == s[k + 1];
    if IsWord(s, i + 1, j + 1) {
      forall k | i <= k < j
        ensures rest[k] != ' '
      {
        assert s[k + 1] != ' ';
      }
    }
  }

  lemma TakeWord(s: Text, n: nat, t: Text)
    requires 0 < n <= |s| && (forall k :: 0 <= k < n ==> s[k] != ' ') && (n < |s| ==> s[n] == ' ')
    ensures HasWord(s, t) <==> s[..n] == t || HasWord(s[n..], t)
  {
    var rest := s[n..];
    if s[..n] == t {
      assert IsWord(s, 0, n) && s[0..n] == t;
    }
    if HasWord(rest, t) {
      var i: nat, j: nat :| IsWord(rest, i, j) && rest[i..j] == t;
      WordShift(s, n, i, j);
    }
    if HasWord(s, t) {
      var i: nat, j: nat :| IsWord(s, i, j) && s[i..j] == t;
      WordAtHeadOrAfter(s, n, i, j);
      if i > 0 {
        WordShift(s, n, i - n, j - n);
      } else {
        assert s[0..j] == s[..n];
      }
    }
  }

  /** Words of the rest are words of the whole, as the rest opens with a space. */
  lemma WordShift(s: Text, n: nat, i: nat, j: nat)
    requires 0 < n <= |s| && (n < |s| ==> s[n] == ' ')
    ensures IsWord(s[n..], i, j) <==> i > 0 && IsWord(s, i + n, j + n)
    ensures IsWord(s[n..], i, j) ==> s[n..][i..j] == s[i + n..j + n]
  {
    var rest := s[n..];
    assert forall k :: 0 <= k < |rest| ==> rest[k] == s[k + n];
    if i > 0 && IsWord(s, i + n, j + n) {
      forall k | i <= k < j
        ensures rest[k] != ' '
      {
        assert s[k + n] != ' ';
      }
    }
  }

  lemma WordAtHeadOrAfter(s: Text, n: nat, i: nat, j: nat)
    requires 0 < n <= |s| && (forall k :: 0 <= k < n ==> s[k] != ' ') && (n < |s| ==> s[n] == ' ')
    requires IsWord(s, i, j)
    ensures if i == 0 then j == n else i > n
  {
    if i == 0 {
      assert j < |s| ==> s[j] == ' ';
    } else {
      assert s[i - 1] == ' ';
    }
  }

  lemma {:induction false} WordsAreStretches(s: Text, t: Text)
    ensures t in Words(s) <==> HasWord(s, t)
    decreases |s|
  {
    if s != [] {
      if s[0] == ' ' {
        SkipSpace(s, t);
        WordsAreStretches(s[1..], t);
      } else {
        hide HasWord, WordLength;
        TakeWord(s, WordLength(s), t);
        WordsAreStretches(s[WordLength(s)..], t);
      }
    }
  }

  /** Positions `i` to `j` bound a maximal run of letters and digits. */
  predicate IsRun(q: Text, i: nat, j: nat) {
    && i < j <= |q|
    && (forall k :: i <= k < j ==> IsAlnum(q[k]))
    && (i == 0 || !IsAlnum(q[i - 1])) && (j == |q| || !IsAlnum(q[j]))
  }

  lemma LowerKeepsAlnum(c: Ascii)
    ensures IsAlnum(ToLower(c)) <==> IsAlnum(c)
    ensures ToLower(ToUpper(c)) == ToLower(c) && ToLower(ToLower(c)) == ToLower(c)
  {
  }

  lemma RunIsWord(q: Text, i: nat, j: nat)
    ensures IsRun(q, i, j) <==> IsWord(Blank(LowerAll(q)), i, j)
    ensures IsRun(q, i, j) ==> Blank(LowerAll(q))[i..j] == LowerAll(q[i..j])
  {
    var s := Blank(LowerAll(q));
    forall k | 0 <= k < |q|
      ensures s[k] == ' ' <==> !IsAlnum(q[k])
      ensures IsAlnum(q[k]) ==> s[k] == ToLower(q[k])
    {
      LowerKeepsAlnum(q[k]);
    }
    hide IsAlnum, ToLower, Blank;
  }

  ghost predicate HasRun(q: Text, t: Text) {
    exists i: nat, j: nat :: IsRun(q, i, j) && LowerAll(q[i..j]) == t
  }

  /** The tokens of a question are the lower-cased maximal runs of letters and digits in it. */
  lemma TokensAreRuns(q: Text, t: Text)
    ensures t in Tokens(q) <==> HasRun(q, t)
  {
    WordsAreStretches(Blank(LowerAll(q)), t);
    hide Words, Blank, LowerAll, IsAlnum;
    if HasWord(Blank(LowerAll(q)), t) {
      var i: nat, j: nat :| IsWord(Blank(LowerAll(q)), i, j) && Blank(LowerAll(q))[i..j] == t;
      RunIsWord(q, i, j);
    }
    if HasRun(q, t) {
      var i: nat, j: nat :| IsRun(q, i, j) && LowerAll(q[i..j]) == t;
      RunIsWord(q, i, j);
    }
  }

  /** The answer is Paris exactly where both words stand in the question, in whatever case. */
  lemma StableAnswerIff(q: Text)
    ensures RespondStable(q) == "Paris" <==> HasRun(q, "capital") && HasRun(q, "france")
    ensures RespondStable(q) == "Paris" || RespondStable(q) == "unknown"
  {
    TokensAreRuns(q, "capital");
    TokensAreRuns(q, "france");
    hide Tokens, HasRun;
  }

  // ---------------------------------------------------------------- what the perturbations do

  /** The case operations change the case of letters and nothing else; a title raises those that begin a run. */
  lemma CasesAre(op: Op, q: Text, i: nat)
    requires op in {Upper, Lower, Title} && i < |q|
    ensures |Apply(op, q)| == |q|
    ensures var c := Apply(op, q)[i];
            if IsLetter(q[i]) then
              var up := op == Upper || (op == Title && (i == 0 || !IsLetter(q[i - 1])));
              IsLetter(c) && (IsUpper(c) <==> up) && ToLower(c) == ToLower(q[i])
            else c == q[i]
  {
  }

  /** What stripping leaves does not end in a question mark, and only question marks went. */
  lemma {:induction false} StrippedIs(q: Text)
    ensures var r := RStripQmark(q);
            && q[..|r|] == r && (forall i :: |r| <= i < |q| ==> q[i] == '?')
            && (r != [] ==> r[|r| - 1] != '?')
  {
    if q != [] && q[|q| - 1] == '?' {
      var init := q[..|q| - 1];
      StrippedIs(init);
      assert forall i :: 0 <= i < |init| ==> init[i] == q[i];
      assert init[..|RStripQmark(q)|] == q[..|RStripQmark(q)|];
    }
  }

  // ---------------------------------------------------------------- invariance

  lemma CaseOps(q: Text)
    ensures LowerAll(UpperAll(q)) == LowerAll(q)
    ensures LowerAll(LowerAll(q)) == LowerAll(q)
    ensures LowerAll(TitleAll(q)) == LowerAll(q)
  {
    forall i | 0 <= i < |q|
      ensures ToLower(ToUpper(q[i])) == ToLower(q[i]) && ToLower(ToLower(q[i])) == ToLower(q[i])
    {
      LowerKeepsAlnum(q[i]);
    }
    hide ToLower, ToUpper, IsLetter;
  }

  lemma {:induction false} WordsTrailing(s: Text)
    ensures Words(s + [' ']) == Words(s)
    decreases |s|
  {
    var t := s + [' '];
    if s == [] {
      assert t[1..] == [];
      assert Words(t) == Words([]);
    } else if s[0] == ' ' {
      assert t[1..] == s[1..] + [' '];
      WordsTrailing(s[1..]);
    } else {
      hide WordLength;
      var n := WordLength(s);
      assert WordLength(t) == n by {
        hide Words;
        assert t[|s|] == ' ';
        assert forall k :: 0 <= k < |s| ==> t[k] == s[k];
      }
      assert t[..n] == s[..n];
      assert t[n..] == s[n..] + [' '];
      WordsTrailing(s[n..]);
    }
  }

  lemma WordsLeading(s: Text)
    ensures Words([' '] + s) == Words(s)
  {
    assert ([' '] + s)[1..] == s;
  }

  lemma BlankSpaces(a: Text, c: Ascii, b: Text)
    requires !IsAlnum(c)
    ensures Blank(LowerAll(a + [c] + b)) == Blank(LowerAll(a)) + [' '] + Blank(LowerAll(b))
  {
    assert !IsUpper(c);
    hide IsAlnum, IsUpper;
    assert ToLower(c) == c;
    hide ToLower;
  }

  lemma TokensAfter(q: Text, c: Ascii)
    requires !IsAlnum(c)
    ensures Tokens(q + [c]) == Tokens(q)
  {
    BlankSpaces(q, c, []);
    assert q + [c] + [] == q + [c];
    hide Words, IsAlnum;
    WordsTrailing(Blank(LowerAll(q)));
    assert Blank(LowerAll(q)) + [' '] + Blank(LowerAll([])) == Blank(LowerAll(q)) + [' '];
  }

  lemma TokensBefore(q: Text, c: Ascii)
    requires !IsAlnum(c)
    ensures Tokens([c] + q) == Tokens(q)
  {
    BlankSpaces([], c, q);
    assert [] + [c] + q == [c] + q;
    hide Words, IsAlnum;
    WordsLeading(Blank(LowerAll(q)));
    assert Blank(LowerAll([])) + [' '] + Blank(LowerAll(q)) == [' '] + Blank(LowerAll(q));
  }

  lemma {:induction false} TokensStripped(q: Text)
    ensures Tokens(RStripQmark(q)) == Tokens(q)
  {
    if q != [] && q[|q| - 1] == '?' {
      hide Tokens;
      TokensStripped(q[..|q| - 1]);
      TokensAfter(q[..|q| - 1], '?');
      assert q == q[..|q| - 1] + ['?'];
    }
  }

  lemma TokensPadded(q: Text)
    ensures Tokens([' ', ' '] + q + [' ', ' ']) == Tokens(q)
  {
    assert !IsAlnum(' ');
    hide Tokens, IsAlnum;
    TokensBefore(q, ' ');
    TokensBefore([' '] + q, ' ');
    TokensAfter([' '] + ([' '] + q), ' ');
    TokensAfter([' '] + ([' '] + q) + [' '], ' ');
    assert [' '] + ([' '] + q) + [' '] + [' '] == [' ', ' '] + q + [' ', ' '];
  }

  lemma TokensInvariant(op: Op, q: Text)
    ensures Tokens(Apply(op, q)) == Tokens(q)
  {
    match op {
      case Upper => CaseOps(q);
      case Lower => CaseOps(q);
      case Title => CaseOps(q);
      case Pad => TokensPadded(q);
      case TrailingSpace =>
        assert !IsAlnum(' ');
        TokensAfter(q, ' ');
      case StripQmark => TokensStripped(q);
    }
  }

  /** No sequence of perturbations, of any length and in any order, changes the tokens of a question
      or the grounded answer. */
  lemma {:induction false} StableUnderAllOps(ops: seq<Op>, q: Text)
    ensures Tokens(ApplyAll(ops, q)) == Tokens(q)
    ensures RespondStable(ApplyAll(ops, q)) == RespondStable(q)
    decreases |ops|
  {
    if ops != [] {
      hide Tokens, Apply;
      TokensInvariant(ops[0], q);
      StableUnderAllOps(ops[1..], Apply(ops[0], q));
    }
  }

  /** Whether an op sequence changes the parity of the length on the way. */
  function Flips(ops: seq<Op>, q: Text): nat
    decreases |ops|
  {
    if ops == [] then 0
    else (match ops[0]
          case TrailingSpace => 1
          case StripQmark => |q| - |RStripQmark(q)|
          case _ => 0) + Flips(ops[1..], Apply(ops[0], q))
  }

  lemma LengthChange(op: Op, q: Text)
    ensures |Apply(op, q)| == match op
              case Pad => |q| + 4
              case TrailingSpace => |q| + 1
              case StripQmark => |RStripQmark(q)|
              case _ => |q|
  {
  }

  /** The ungrounded answer survives an op sequence exactly when the spaces appended and question marks
      stripped along it are even in number: case changes and padding can never expose it, and one
      trailing space always does. */
  lemma VolatileIff(ops: seq<Op>, q: Text)
    ensures RespondVolatile(ApplyAll(ops, q)) == RespondVolatile(q) <==> Flips(ops, q) % 2 == 0
    ensures RespondVolatile(ApplyAll(ops, q)) == if (|q| + Flips(ops, q)) % 2 == 0 then "Paris" else "Lyon"
    ensures RespondVolatile(Apply(TrailingSpace, q)) != RespondVolatile(q)
  {
    LengthChange(TrailingSpace, q);
    LengthAfter(ops, q);
    VolatileAnswer(Apply(TrailingSpace, q));
    VolatileAnswer(ApplyAll(ops, q));
    VolatileAnswer(q);
    hide *;
  }

  lemma {:induction false} LengthAfter(ops: seq<Op>, q: Text)
    ensures |ApplyAll(ops, q)| % 2 == (|q| + Flips(ops, q)) % 2
    decreases |ops|
  {
    hide Apply, RStripQmark;
    if ops != [] {
      var next := Apply(ops[0], q);
      LengthAfter(ops[1..], next);
      Parity(ops[0], q, Flips(ops[1..], next));
    }
  }

  lemma VolatileAnswer(q: Text)
    ensures RespondVolatile(q) == (if |q| % 2 == 0 then "Paris" else "Lyon") && "Paris" != "Lyon"
  {
    assert "Paris"[0] != "Lyon"[0];
  }

  lemma Parity(op: Op, q: Text, later: nat)
    ensures var n := |Apply(op, q)|;
            var now := match op case TrailingSpace => 1 case StripQmark => |q| - |RStripQmark(q)| case _ => 0;
            (n + later) % 2 == (|q| + (now + later)) % 2
  {
    LengthChange(op, q);
    hide Apply, RStripQmark;
  }
}
