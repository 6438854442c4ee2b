/** Run-length coding: the encoder's loop, both decoders, and the bijection between texts
    and canonical run lists. */
module RunLength {
  datatype Run = Run(ch: char, count: int)

  /** `char * count`: empty for a count that is not positive. */
  function Repeat(c: char, count: int): string {
    seq(if count < 0 then 0 else count, _ => c)
  }

  function Decode(runs: seq<Run>): string {
    if runs == [] then "" else Repeat(runs[0].ch, runs[0].count) + Decode(runs[1..])
  }

  /** The planted defect: runs of length one are dropped. */
  function BuggyDecode(runs: seq<Run>): string {
    if runs == [] then ""
    else (if runs[0].count != 1 then Repeat(runs[0].ch, runs[0].count) else "") + BuggyDecode(runs[1..])
  }

  /** Positive counts and distinct neighbours. */
  predicate Canonical(runs: seq<Run>) {
    && (forall i :: 0 <= i < |runs| ==> runs[i].count > 0)
    && (forall i :: 0 < i < |runs| ==> runs[i - 1].ch != runs[i].ch)
  }

  /** Length of the longest prefix made of the first character. */
  function LeadingRun(text: string): (n: nat)
    requires text != ""
    ensures 0 < n <= |text|
    ensures forall i :: 0 <= i < n ==> text[i] == text[0]
    ensures n < |text| ==> text[n] != text[0]
  {
    if |text| == 1 || text[1] != text[0] then 1
    else
      assert forall i :: 0 < i < |text| ==> text[i] == text[1..][i - 1];
      1 + LeadingRun(text[1..])
  }

  /** The maximal runs of a text, from left to right. */
  function Encode(text: string): seq<Run>
    decreases |text|
  {
    if text == "" then []
    else
      var n := LeadingRun(text);
      [Run(text[0], n)] + Encode(text[n..])
  }

  /** The source's loop, which grows the last run or appends a new one. */
  method RleEncode(text: string) returns (runs: seq<Run>)
    ensures runs == Encode(text)
  {
    runs := [];
    DecodeEmpty();
    for i := 0 to |text|
      invariant Canonical(runs) && Decode(runs) == text[..i]
    {
      var ch := text[i];
      assert text[..i + 1] == text[..i] + [ch];
      if runs != [] && runs[|runs| - 1].ch == ch {
        var last := runs[|runs| - 1];
        GrowLast(runs);
        runs := runs[..|runs| - 1] + [Run(ch, last.count + 1)];
      } else {
        AppendRun(runs, ch);
        runs := runs + [Run(ch, 1)];
      }
    }
    assert text[..|text|] == text;
    CanonicalIsShortest(runs);
  }

  lemma GrowLast(runs: seq<Run>)
    requires runs != [] && Canonical(runs)
    ensures var last := runs[|runs| - 1];
            var grown := runs[..|runs| - 1] + [Run(last.ch, last.count + 1)];
            Canonical(grown) && Decode(grown) == Decode(runs) + [last.ch]
  {
    hide Decode;
    var init, last := runs[..|runs| - 1], runs[|runs| - 1];
    assert runs == init + [last];
    DecodeConcat(init, [last]);
    DecodeConcat(init, [Run(last.ch, last.count + 1)]);
    DecodeOne(last);
    DecodeOne(Run(last.ch, last.count + 1));
    assert Repeat(last.ch, last.count + 1) == Repeat(last.ch, last.count) + [last.ch];
  }

  lemma AppendRun(runs: seq<Run>, ch: char)
    requires Canonical(runs) && (runs != [] ==> runs[|runs| - 1].ch != ch)
    ensures Canonical(runs + [Run(ch, 1)]) && Decode(runs + [Run(ch, 1)]) == Decode(runs) + [ch]
  {
    hide Decode;
    DecodeConcat(runs, [Run(ch, 1)]);
    DecodeOne(Run(ch, 1));
    assert Repeat(ch, 1) == [ch];
  }

  lemma {:induction false} DecodeConcat(a: seq<Run>, b: seq<Run>)
    ensures Decode(a + b) == Decode(a) + Decode(b)
  {
    if a == [] {
      assert a + b == b;
    } else {
      var head := Repeat(a[0].ch, a[0].count);
      calc {
        Decode(a + b);
        { assert (a + b)[0] == a[0] && (a + b)[1..] == a[1..] + b; }
        head + Decode(a[1..] + b);
        { DecodeConcat(a[1..], b); }
        head + (Decode(a[1..]) + Decode(b));
        (head + Decode(a[1..])) + Decode(b);
      }
    }
  }

  lemma DecodeOne(r: Run)
    ensures Decode([r]) == Repeat(r.ch, r.count)
  {
    assert [r][1..] == [];
  }

  /** Encoding is a section of decoding: every text comes back. */
  lemma {:induction false} RoundTrip(text: string)
    ensures Decode(Encode(text)) == text
    ensures Canonical(Encode(text))
    decreases |text|
  {
    hide LeadingRun, Decode, Canonical;
    if text == "" {
      DecodeEmpty();
    } else {
      var n := LeadingRun(text);
      var rest := text[n..];
      RoundTrip(rest);
      DecodeConcat([Run(text[0], n)], Encode(rest));
      DecodeOne(Run(text[0], n));
      assert Repeat(text[0], n) + rest == text;
      EncodeHead(rest);
      CanonicalCons(Run(text[0], n), Encode(rest));
    }
  }

  lemma DecodeEmpty()
    ensures Decode([]) == "" && Canonical([])
  {
  }

  lemma EncodeHead(text: string)
    ensures if text == "" then Encode(text) == [] else Encode(text) != [] && Encode(text)[0].ch == text[0]
  {
    hide LeadingRun;
  }

  lemma CanonicalCons(r: Run, runs: seq<Run>)
    ensures Canonical([r] + runs) <==>
            r.count > 0 && Canonical(runs) && (runs == [] || runs[0].ch != r.ch)
  {
    var all := [r] + runs;
    assert all[0] == r;
    assert forall i :: 0 <= i < |runs| ==> all[i + 1] == runs[i];
    if Canonical(all) {
      assert forall i :: 0 <= i < |runs| ==> runs[i] == all[i + 1];
      assert runs != [] ==> all[1] == runs[0];
    }
  }

  lemma DecodeHead(runs: seq<Run>)
    requires Canonical(runs)
    ensures if runs == [] then Decode(runs) == ""
            else Decode(runs) != "" && Decode(runs)[0] == runs[0].ch
  {
    if runs != [] {
      assert Repeat(runs[0].ch, runs[0].count)[0] == runs[0].ch;
    }
  }

  /** The leading run is the only prefix of equal characters that cannot be extended. */
  lemma EncodeStep(text: string, n: nat)
    requires 0 < n <= |text|
    requires forall i :: 0 <= i < n ==> text[i] == text[0]
    requires n < |text| ==> text[n] != text[0]
    ensures LeadingRun(text) == n
    ensures Encode(text) == [Run(text[0], n)] + Encode(text[n..])
  {
  }

  lemma PrependFresh(c: char, count: int, text: string)
    requires count > 0 && (text == "" || text[0] != c)
    ensures Encode(Repeat(c, count) + text) == [Run(c, count)] + Encode(text)
  {
    var t := Repeat(c, count) + text;
    assert text != "" ==> t[count] == text[0];
    EncodeStep(t, count);
    assert t[count..] == text;
  }

  lemma RepeatThen(c: char, count: nat, text: string, k: nat)
    requires k <= |text| && (forall i :: 0 <= i < k ==> text[i] == c) && (k < |text| ==> text[k] != c)
    ensures var t := Repeat(c, count) + text;
            && |t| == count + |text|
            && (forall i :: 0 <= i < count + k ==> t[i] == c)
            && (count + k < |t| ==> t[count + k] != c)
            && t[count + k..] == text[k..]
  {
  }

  lemma PrependAbsorbed(c: char, count: int, text: string)
    requires count <= 0 || (text != "" && text[0] == c)
    ensures |Encode(Repeat(c, count) + text)| == |Encode(text)|
  {
    if count <= 0 {
      assert Repeat(c, count) + text == text;
    } else {
      hide *;
      var k := LeadingRun(text);
      RepeatThen(c, count, text, k);
      LongerRun(Repeat(c, count) + text, count, text, k);
    }
  }

  /** Two texts that differ in the length of their first run only have encodings of one length. */
  lemma LongerRun(t: string, count: nat, text: string, k: nat)
    requires 0 < k <= |text| && (forall i :: 0 <= i < k ==> text[i] == text[0]) && (k < |text| ==> text[k] != text[0])
    requires |t| == count + |text| && (forall i :: 0 <= i < count + k ==> t[i] == text[0])
    requires (count + k < |t| ==> t[count + k] != text[0]) && t[count + k..] == text[k..]
    ensures |Encode(t)| == |Encode(text)|
  {
    hide *;
    EncodeStep(text, k);
    EncodeStep(t, count + k);
  }

  /** No run list decoding to a text is shorter than its encoding, and the encoding is the only
      one of that length; a run list survives decode-then-encode exactly when it is canonical. */
  lemma {:induction false} CanonicalIsShortest(runs: seq<Run>)
    ensures |Encode(Decode(runs))| <= |runs|
    ensures |Encode(Decode(runs))| == |runs| <==> Canonical(runs)
    ensures Encode(Decode(runs)) == runs <==> Canonical(runs)
  {
    hide Encode, Repeat, Canonical, LeadingRun;
    if runs == [] {
      DecodeEmpty();
      EncodeHead("");
    } else {
      var r, rest := runs[0], runs[1..];
      var text := Decode(rest);
      assert runs == [r] + rest;
      CanonicalIsShortest(rest);
      CanonicalCons(r, rest);
      if Canonical(rest) {
        DecodeHead(rest);
      }
      if r.count > 0 && (text == "" || text[0] != r.ch) {
        PrependFresh(r.ch, r.count, text);
        assert Encode(text) == ([r] + Encode(text))[1..];
      } else {
        PrependAbsorbed(r.ch, r.count, text);
      }
    }
  }

  /** Position `i` is a maximal run of length one. */
  predicate Isolated(text: string, i: int)
    requires 0 <= i < |text|
  {
    && (i == 0 || text[i - 1] != text[i])
    && (i + 1 == |text| || text[i + 1] != text[i])
  }

  ghost predicate HasIsolated(text: string) {
    exists i :: 0 <= i < |text| && Isolated(text, i)
  }

  ghost predicate HasRunOfOne(runs: seq<Run>) {
    exists j :: 0 <= j < |runs| && runs[j].count == 1
  }

  lemma HasRunOfOneStep(r: Run, runs: seq<Run>)
    ensures HasRunOfOne([r] + runs) <==> r.count == 1 || HasRunOfOne(runs)
  {
    var all := [r] + runs;
    assert all[0] == r;
    assert forall j :: 0 <= j < |runs| ==> all[j + 1] == runs[j];
    if HasRunOfOne(all) {
      var j :| 0 <= j < |all| && all[j].count == 1;
      assert j > 0 ==> runs[j - 1].count == 1;
    }
  }

  lemma HasIsolatedStep(text: string, n: nat)
    requires 0 < n <= |text|
    requires forall i :: 0 <= i < n ==> text[i] == text[0]
    requires n < |text| ==> text[n] != text[0]
    ensures HasIsolated(text) <==> n == 1 || HasIsolated(text[n..])
  {
    var rest := text[n..];
    assert forall i :: 0 <= i < |rest| ==> (Isolated(rest, i) <==> Isolated(text, i + n));
    if n == 1 {
      assert Isolated(text, 0);
    } else {
      assert forall i :: 0 <= i < n ==> !Isolated(text, i) by {
        assert text[1] == text[0];
        assert forall i :: 0 < i < n ==> text[i - 1] == text[i];
      }
      if HasIsolated(text) {
        var i :| 0 <= i < |text| && Isolated(text, i);
        assert Isolated(rest, i - n);
      }
      if HasIsolated(rest) {
        var i :| 0 <= i < |rest| && Isolated(rest, i);
        assert Isolated(text, i + n);
      }
    }
  }

  lemma {:induction false} IsolatedIsRunOfOne(text: string)
    ensures HasIsolated(text) <==> HasRunOfOne(Encode(text))
    decreases |text|
  {
    if text != "" {
      hide LeadingRun, HasIsolated, HasRunOfOne;
      var n := LeadingRun(text);
      HasIsolatedStep(text, n);
      HasRunOfOneStep(Run(text[0], n), Encode(text[n..]));
      IsolatedIsRunOfOne(text[n..]);
    }
  }

  lemma {:induction false} BuggyLength(runs: seq<Run>)
    ensures |BuggyDecode(runs)| <= |Decode(runs)|
    ensures BuggyDecode(runs) == Decode(runs) <==> !HasRunOfOne(runs)
  {
    if runs != [] {
      BuggyLength(runs[1..]);
      HasRunOfOneStep(runs[0], runs[1..]);
      assert runs == [runs[0]] + runs[1..];
      var r := Repeat(runs[0].ch, runs[0].count);
      if runs[0].count != 1 {
        assert BuggyDecode(runs)[|r|..] == BuggyDecode(runs[1..]);
        assert Decode(runs)[|r|..] == Decode(runs[1..]);
      }
    }
  }

  /** The defective decoder is right on exactly the texts without a maximal run of length one. */
  lemma BuggyRoundTripIff(text: string)
    ensures BuggyDecode(Encode(text)) == text <==> !HasIsolated(text)
  {
    RoundTrip(text);
    BuggyLength(Encode(text));
    IsolatedIsRunOfOne(text);
  }
}
