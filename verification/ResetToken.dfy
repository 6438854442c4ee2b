/** Password-reset tokens: `email|pwreset|expiry|nonce|tag`, signed, expiring and single-use. */
module ResetToken {
  import opened Text

  /** HMAC-SHA256 of a text's encoding under the server secret. */
  type Mac = string -> Bytes

  // ---------------------------------------------------------------- int(s)

  /** Digits, with single underscores allowed between them. */
  function Digits(s: string): Option<nat> {
    if s == "" || !IsDigit(s[|s| - 1]) then None
    else
      var d := DigitValue(s[|s| - 1]);
      var init := s[..|s| - 1];
      if init == "" then Some(d)
      else
        var head := if init[|init| - 1] == '_' then init[..|init| - 1] else init;
        match Digits(head) case None => None case Some(n) => Some(n * 10 + d)
  }

  /** `int(s)`, or None where it raises ValueError. */
  function PyInt(s: string): Option<int> {
    SignedInt(Strip(s, IsSpace))
  }

  function SignedInt(t: string): Option<int> {
    var signed := t != "" && (t[0] == '-' || t[0] == '+');
    match Digits(if signed then t[1..] else t)
    case None => None
    case Some(n) =>
      var v: int := n;
      if signed && t[0] == '-' then Some(-v) else Some(v)
  }

  lemma {:induction false} DigitsOf(s: string)
    requires s != "" && AllDigits(s)
    ensures Digits(s) == Some(NatValue(s))
  {
    var init := s[..|s| - 1];
    if init == "" {
      assert NatValue(init) == 0;
    } else {
      DigitsOf(init);
      assert IsDigit(init[|init| - 1]);
    }
  }

  lemma NoStrip(s: string)
    requires s != "" && !IsSpace(s[0]) && !IsSpace(s[|s| - 1])
    ensures Strip(s, IsSpace) == s
  {
  }

  lemma PyIntOfDecimal(n: int)
    ensures PyInt(DecimalInt(n)) == Some(n)
  {
    var m: nat := if n < 0 then -n else n;
    DecimalRoundTrip(m);
    hide PyInt, Decimal;
    PyIntOfDigits(Decimal(m));
  }

  lemma PyIntOfDigits(d: string)
    requires d != "" && AllDigits(d)
    ensures PyInt(d) == Some(NatValue(d)) && PyInt("-" + d) == Some(-(NatValue(d) as int))
  {
    var s := "-" + d;
    DigitsOf(d);
    assert IsDigit(d[0]) && IsDigit(d[|d| - 1]);
    assert s[|s| - 1] == d[|d| - 1] && s[1..] == d;
    NoStrip(s);
    NoStrip(d);
    hide Strip, Digits, NatValue;
  }

  /** The text without its underscores. */
  function Bare(s: string): string {
    if s == "" then "" else Bare(s[..|s| - 1]) + if s[|s| - 1] == '_' then "" else [s[|s| - 1]]
  }

  /** A numeral: digits, with single underscores between them. */
  ghost predicate Numeral(s: string) {
    Spaced(s) && AllDigits(Bare(s))
  }

  ghost predicate Spaced(s: string) {
    && s != "" && IsDigit(s[0]) && IsDigit(s[|s| - 1])
    && forall i :: 0 < i < |s| && s[i] == '_' ==> s[i - 1] != '_'
  }

  lemma BareSnoc(s: string, c: char)
    ensures Bare(s + [c]) == Bare(s) + if c == '_' then "" else [c]
  {
    assert (s + [c])[..|s|] == s;
  }

  lemma ValueSnoc(s: string, c: char)
    requires IsDigit(c)
    ensures AllDigits(s + [c]) <==> AllDigits(s)
    ensures AllDigits(s) ==> NatValue(s + [c]) == NatValue(s) * 10 + DigitValue(c)
  {
    assert (s + [c])[..|s|] == s;
    assert AllDigits(s + [c]) ==> forall i :: 0 <= i < |s| ==> s[i] == (s + [c])[i];
  }

  lemma SpacedSnoc(head: string, gap: bool, c: char)
    requires IsDigit(c) && (head != "" && head[|head| - 1] != '_' ==> IsDigit(head[|head| - 1]))
    requires !gap ==> head != "" && head[|head| - 1] != '_'
    ensures Spaced(head + (if gap then "_" else "") + [c]) <==> Spaced(head)
  {
    var s := head + (if gap then "_" else "") + [c];
    NoDigit();
    hide IsDigit;
    if head != "" {
      var last := |head| - 1;
      assert forall i :: 0 <= i < |head| ==> s[i] == head[i];
      assert s[0] == head[0] && s[last] == head[last];
      assert s[|s| - 1] == c && c != '_';
      assert gap ==> |s| == |head| + 2 && s[last + 1] == '_';
    } else {
      assert s[0] == '_';
    }
  }

  lemma NoDigit()
    ensures !IsDigit('_')
  {
  }

  /** A numeral of more than one character is one followed by a digit, or by an underscore and a digit. */
  lemma NumeralSnoc(head: string, gap: bool, c: char)
    requires IsDigit(c) && (!gap ==> head != "" && head[|head| - 1] != '_')
    ensures var s := head + (if gap then "_" else "") + [c];
            && (Numeral(s) <==> Numeral(head))
            && (Numeral(head) ==> NatValue(Bare(s)) == NatValue(Bare(head)) * 10 + DigitValue(c))
  {
    var init := head + if gap then "_" else "";
    assert Bare(init) == Bare(head) by {
      BareSnoc(head, '_');
      assert !gap ==> init == head;
      hide Bare;
    }
    BareSnoc(init, c);
    ValueSnoc(Bare(init), c);
    NoDigit();
    hide Bare, AllDigits, NatValue, Spaced;
    if AllDigits(Bare(head)) {
      if head != "" && head[|head| - 1] != '_' {
        BareEnd(head);
      }
      SpacedSnoc(head, gap, c);
    }
  }

  lemma BareEnd(s: string)
    requires s != "" && s[|s| - 1] != '_' && AllDigits(Bare(s))
    ensures IsDigit(s[|s| - 1])
  {
    hide *;
    var init, c := s[..|s| - 1], s[|s| - 1];
    BareSnoc(init, c);
    assert s == init + [c];
    LastDigit(Bare(init), c);
  }

  lemma LastDigit(s: string, c: char)
    requires AllDigits(s + [c])
    ensures IsDigit(c)
  {
    assert (s + [c])[|s|] == c;
  }

  lemma {:induction false} DigitsIff(s: string)
    ensures Digits(s).Some? <==> Numeral(s)
    ensures Numeral(s) ==> Digits(s).value == NatValue(Bare(s))
  {
    if s != "" && IsDigit(s[|s| - 1]) {
      var init, c := s[..|s| - 1], s[|s| - 1];
      if init == "" {
        BareSnoc("", c);
        assert s == "" + [c] && Bare(s) == s;
        ValueSnoc("", c);
      } else {
        var gap := init[|init| - 1] == '_';
        var head := if gap then init[..|init| - 1] else init;
        DigitsIff(head);
        NumeralSnoc(head, gap, c);
        assert s == head + (if gap then "_" else "") + [c];
        hide Bare, NatValue, AllDigits, Numeral;
      }
    }
  }

  /** An optional sign and a numeral. */
  ghost predicate Signed(t: string, v: int) {
    || (Numeral(t) && v == NatValue(Bare(t)))
    || (t != "" && t[0] == '+' && Numeral(t[1..]) && v == NatValue(Bare(t[1..])))
    || (t != "" && t[0] == '-' && Numeral(t[1..]) && v + NatValue(Bare(t[1..])) == 0)
  }

  /** Between `i` and `j` the text is a signed numeral, and around it blank. */
  ghost predicate SignedAt(s: string, i: int, j: int, v: int) {
    && 0 <= i <= j <= |s| && Signed(s[i..j], v)
    && (forall k :: 0 <= k < i ==> IsSpace(s[k])) && (forall k :: j <= k < |s| ==> IsSpace(s[k]))
  }

  lemma SignedEnds(t: string, v: int)
    requires Signed(t, v)
    ensures t != "" && !IsSpace(t[0]) && !IsSpace(t[|t| - 1])
  {
  }

  lemma SignedIntIff(t: string, v: int)
    ensures SignedInt(t) == Some(v) <==> Signed(t, v)
  {
    DigitsIff(t);
    assert Numeral(t) ==> IsDigit(t[0]);
    if t != "" {
      DigitsIff(t[1..]);
    }
    hide Digits, Numeral, Bare, NatValue, AllDigits;
  }

  /** Nothing but the blanks around a signed numeral is stripped. */
  lemma StripSigned(s: string, i: int, j: int, v: int)
    requires SignedAt(s, i, j, v)
    ensures Strip(s, IsSpace) == s[i..j]
  {
    var n, m := StripIs(s, IsSpace);
    SignedEnds(s[i..j], v);
    hide Strip, Signed, IsSpace;
    assert !IsSpace(s[i]) && !IsSpace(s[j - 1]);
    assert n == i && m == j;
  }

  /** `int(s)` reads exactly the signed numerals with blanks around them, at their value. */
  lemma PyIntIff(s: string, v: int)
    ensures PyInt(s) == Some(v) <==> exists i, j :: SignedAt(s, i, j, v)
  {
    SignedIntIff(Strip(s, IsSpace), v);
    hide SignedInt, Strip, Signed, IsSpace;
    if PyInt(s) == Some(v) {
      var i, j := StripIs(s, IsSpace);
      assert SignedAt(s, i, j, v);
    }
    if exists i, j :: SignedAt(s, i, j, v) {
      var i, j :| SignedAt(s, i, j, v);
      StripSigned(s, i, j, v);
    }
  }

  // ---------------------------------------------------------------- issue and verify

  function Payload(email: string, exp: int, nonce: string): string {
    email + ['|'] + "pwreset" + ['|'] + DecimalInt(exp) + ['|'] + nonce
  }

  /** `issue`, at a clock reading and with a drawn nonce. */
  function Issue(mac: Mac, email: string, now: int, nonce: string): string {
    var payload := Payload(email, now + 1200, nonce);
    payload + ['|'] + Hex(mac(payload))
  }

  /** Raised is the ValueError of `int(exp)`, which `verify` does not catch. */
  datatype Verdict = Accepted | Rejected | Raised

  /** The signed fields of a token, when its tag is the tag of its payload and it has four fields. */
  function SignedFields(mac: Mac, token: string): (r: Option<seq<string>>)
    ensures r.Some? ==> |r.value| == 4
  {
    match RSplit(token, '|')
    case None => None
    case Some((payload, tag)) =>
      if FromHex(tag) != Some(mac(payload)) then None
      else
        var parts := Split(payload, '|');
        if |parts| != 4 then None else Some(parts)
  }

  function Check(mac: Mac, used: set<string>, email: string, token: string, now: int): Verdict {
    match SignedFields(mac, token)
    case None => Rejected
    case Some(parts) =>
      if parts[0] != email || parts[1] != "pwreset" then Rejected
      else match PyInt(parts[2])
        case None => Raised
        case Some(exp) => if exp < now || parts[3] in used then Rejected else Accepted
  }

  function NonceOf(mac: Mac, token: string): string {
    match SignedFields(mac, token) case None => "" case Some(parts) => parts[3]
  }

  class SignedTokenDesign {
    const mac: Mac
    var used: set<string>

    constructor (mac: Mac)
      ensures this.mac == mac && used == {}
    {
      this.mac := mac;
      used := {};
    }

    method Verify(email: string, token: string, now: int) returns (v: Verdict)
      modifies this
      ensures v == Check(mac, old(used), email, token, now)
      ensures used == if v.Accepted? then old(used) + {NonceOf(mac, token)} else old(used)
    {
      var cut := RSplit(token, '|');
      if cut.None? {
        return Rejected;
      }
      var (payload, tag) := cut.value;
      if FromHex(tag) != Some(mac(payload)) {
        return Rejected;
      }
      var parts := Split(payload, '|');
      if |parts| != 4 || parts[0] != email || parts[1] != "pwreset" {
        return Rejected;
      }
      var exp := PyInt(parts[2]);
      if exp.None? {
        return Raised;
      }
      if exp.value < now || parts[3] in used {
        return Rejected;
      }
      used := used + {parts[3]};
      v := Accepted;
    }
  }

  // ---------------------------------------------------------------- the format is unambiguous

  lemma SplitPayload(email: string, exp: int, nonce: string)
    requires '|' !in nonce
    ensures Split(Payload(email, exp, nonce), '|') == Split(email, '|') + ["pwreset", DecimalInt(exp), nonce]
  {
    DecimalIntAlphabet(exp, '|');
    SplitWhole("pwreset");
    SplitWhole(DecimalInt(exp));
    SplitWhole(nonce);
    hide Split, DecimalInt;
    var a := email + ['|'] + "pwreset";
    var b := a + ['|'] + DecimalInt(exp);
    assert Payload(email, exp, nonce) == b + ['|'] + nonce;
    SplitConcat(b, '|', nonce);
    SplitConcat(a, '|', DecimalInt(exp));
    SplitConcat(email, '|', "pwreset");
    Snoc3(Split(email, '|'), "pwreset", DecimalInt(exp), nonce);
  }

  lemma Snoc3(x: seq<string>, a: string, b: string, c: string)
    ensures x + [a] + [b] + [c] == x + [a, b, c]
  {
  }

  /** A payload of four fields was made for a pipe-free email, and these are its fields. */
  lemma PayloadFields(email: string, exp: int, nonce: string)
    requires '|' !in nonce
    ensures var parts := Split(Payload(email, exp, nonce), '|');
            if '|' in email then |parts| > 4 else parts == [email, "pwreset", DecimalInt(exp), nonce]
  {
    SplitPayload(email, exp, nonce);
    SplitParts(email, '|');
    if '|' !in email {
      SplitWhole(email);
    }
    hide Split, DecimalInt, Payload;
    Snoc3([email], "pwreset", DecimalInt(exp), nonce);
  }

  lemma SplitWhole(s: string)
    requires '|' !in s
    ensures Split(s, '|') == [s]
  {
    SplitParts(s, '|');
  }

  /** The token is four fields and the tag of those four, pipes between them and nowhere else. */
  ghost predicate Carries(mac: Mac, token: string, fields: seq<string>) {
    && |fields| == 4 && (forall f :: f in fields ==> '|' !in f)
    && exists tag :: token == Join(fields, '|') + ['|'] + tag && '|' !in tag && Spells(tag, mac(Join(fields, '|')))
  }

  lemma SignedFieldsIff(mac: Mac, token: string, fields: seq<string>)
    ensures SignedFields(mac, token) == Some(fields) <==> Carries(mac, token, fields)
  {
    hide Split, Join, FromHex, Spells, RSplit;
    if SignedFields(mac, token) == Some(fields) {
      var (payload, tag) := RSplit(token, '|').value;
      SplitParts(payload, '|');
      FromHexIff(tag, mac(payload));
    }
    if Carries(mac, token, fields) {
      var tag :| token == Join(fields, '|') + ['|'] + tag && '|' !in tag && Spells(tag, mac(Join(fields, '|')));
      RSplitUnique(Join(fields, '|'), '|', tag);
      SplitJoin(fields, '|');
      FromHexIff(tag, mac(Join(fields, '|')));
    }
  }

  /** Any text at all is accepted exactly if it carries, under the server's tag, the email asked for, the purpose
      `pwreset`, an expiry not yet past and a nonce not used; and raises where only the expiry is no number. */
  lemma CheckIff(mac: Mac, used: set<string>, email: string, token: string, now: int)
    ensures Check(mac, used, email, token, now).Accepted? <==>
            exists e, nonce, exp :: Carries(mac, token, [email, "pwreset", e, nonce]) && nonce !in used
                                    && PyInt(e) == Some(exp) && now <= exp
    ensures Check(mac, used, email, token, now).Raised? <==>
            exists e, nonce :: Carries(mac, token, [email, "pwreset", e, nonce]) && PyInt(e) == None
  {
    var found := SignedFields(mac, token);
    if found.Some? {
      SignedFieldsIff(mac, token, found.value);
    }
    hide SignedFields, PyInt, Carries;
    forall e, nonce | Carries(mac, token, [email, "pwreset", e, nonce])
      ensures found == Some([email, "pwreset", e, nonce])
    {
      SignedFieldsIff(mac, token, [email, "pwreset", e, nonce]);
    }
    if found.Some? && found.value[0] == email && found.value[1] == "pwreset" {
      assert found.value == [email, "pwreset", found.value[2], found.value[3]];
    }
  }

  /** An issued token carries its own signature, and has four fields exactly for a pipe-free email. */
  lemma IssuedFields(mac: Mac, email: string, now: int, nonce: string)
    requires '|' !in nonce
    ensures SignedFields(mac, Issue(mac, email, now, nonce)) ==
            if '|' in email then None else Some([email, "pwreset", DecimalInt(now + 1200), nonce])
  {
    var payload := Payload(email, now + 1200, nonce);
    HexRoundTrip(mac(payload));
    RSplitUnique(payload, '|', Hex(mac(payload)));
    PayloadFields(email, now + 1200, nonce);
    hide Split, RSplit, FromHex, Hex, Payload, DecimalInt;
  }

  /** At any moment an issued token is accepted exactly for its own pipe-free email, up to its expiry
      and while its nonce is unused; it never raises. */
  lemma IssuedAcceptedIff(mac: Mac, used: set<string>, email: string, issuedAt: int, nonce: string,
                          who: string, now: int)
    requires '|' !in nonce
    ensures Check(mac, used, who, Issue(mac, email, issuedAt, nonce), now) ==
            if '|' !in email && who == email && now <= issuedAt + 1200 && nonce !in used then Accepted else Rejected
  {
    IssuedFields(mac, email, issuedAt, nonce);
    PyIntOfDecimal(issuedAt + 1200);
    hide SignedFields, Issue, PyInt, DecimalInt;
  }

  /** A token signed by anything else than the server's own tag function, as `forge` signs its own with a
      bare hash, is accepted only where that signer agrees with the server on the very payload. */
  lemma ForgedAcceptedIff(mac: Mac, forger: Mac, used: set<string>, email: string, issuedAt: int, nonce: string,
                          who: string, now: int)
    requires '|' !in nonce
    ensures Check(mac, used, who, Issue(forger, email, issuedAt, nonce), now) ==
            var payload := Payload(email, issuedAt + 1200, nonce);
            if forger(payload) == mac(payload) && '|' !in email && who == email
               && now <= issuedAt + 1200 && nonce !in used
            then Accepted else Rejected
  {
    var payload := Payload(email, issuedAt + 1200, nonce);
    if forger(payload) == mac(payload) {
      IssuedAcceptedIff(mac, used, email, issuedAt, nonce, who, now);
    } else {
      HexRoundTrip(forger(payload));
      RSplitUnique(payload, '|', Hex(forger(payload)));
      hide Split, RSplit, FromHex, Hex, Payload, DecimalInt;
    }
  }

  // ---------------------------------------------------------------- whole runs

  datatype Attempt = Attempt(email: string, token: string, now: int)

  /** The used nonces before attempt `i` of a run. */
  function UsedBefore(mac: Mac, run: seq<Attempt>, i: nat): set<string>
    requires i <= |run|
    decreases i, 0
  {
    if i == 0 then {}
    else
      UsedBefore(mac, run, i - 1)
      + if VerdictAt(mac, run, i - 1).Accepted? then {NonceOf(mac, run[i - 1].token)} else {}
  }

  function VerdictAt(mac: Mac, run: seq<Attempt>, i: nat): Verdict
    requires i < |run|
    decreases i, 1
  {
    Check(mac, UsedBefore(mac, run, i), run[i].email, run[i].token, run[i].now)
  }

  lemma {:induction false} UsedBeforeIs(mac: Mac, run: seq<Attempt>, i: nat, nonce: string)
    requires i <= |run|
    ensures nonce in UsedBefore(mac, run, i) <==>
            exists j :: 0 <= j < i && VerdictAt(mac, run, j).Accepted? && NonceOf(mac, run[j].token) == nonce
  {
    hide VerdictAt, NonceOf;
    if i > 0 {
      UsedBeforeIs(mac, run, i - 1, nonce);
    }
  }

  /** No nonce is accepted twice in any run, whatever tokens are tried. */
  lemma {:induction false} NonceAcceptedOnce(mac: Mac, run: seq<Attempt>, i: nat, j: nat)
    requires i < j < |run| && VerdictAt(mac, run, i).Accepted? && VerdictAt(mac, run, j).Accepted?
    ensures NonceOf(mac, run[i].token) != NonceOf(mac, run[j].token)
  {
    UsedBeforeIs(mac, run, j, NonceOf(mac, run[j].token));
    hide SignedFields, UsedBefore, PyInt;
  }

  /** In every run, presenting an issued token succeeds exactly when its email has no pipe, it is
      presented for that email before it expires, and no earlier attempt spent its nonce. */
  lemma {:induction false} IssuedInRun(mac: Mac, run: seq<Attempt>, i: nat, email: string, issuedAt: int, nonce: string)
    requires i < |run| && '|' !in nonce && run[i].token == Issue(mac, email, issuedAt, nonce)
    ensures VerdictAt(mac, run, i) ==
            if && '|' !in email && run[i].email == email && run[i].now <= issuedAt + 1200
               && !exists j :: 0 <= j < i && VerdictAt(mac, run, j).Accepted? && NonceOf(mac, run[j].token) == nonce
            then Accepted else Rejected
  {
    UsedBeforeIs(mac, run, i, nonce);
    IssuedAcceptedIff(mac, UsedBefore(mac, run, i), email, issuedAt, nonce, run[i].email, run[i].now);
    hide Check, UsedBefore, Issue;
  }

  datatype Issued = Issued(email: string, now: int, nonce: string)

  /** Tags are unforged: every attempt whose tag fits its payload carries an issued payload. */
  ghost predicate OnlyIssued(mac: Mac, run: seq<Attempt>, issued: seq<Issued>) {
    forall i :: 0 <= i < |run| && RSplit(run[i].token, '|').Some? ==>
      (FromHex(RSplit(run[i].token, '|').value.1) == Some(mac(RSplit(run[i].token, '|').value.0)) ==>
        exists k :: 0 <= k < |issued| && IsPayloadOf(RSplit(run[i].token, '|').value.0, issued[k]))
  }

  predicate IsPayloadOf(payload: string, t: Issued) {
    payload == Payload(t.email, t.now + 1200, t.nonce) && '|' !in t.nonce
  }

  /** Without forgery every acceptance is of a token issued to that very email and not yet expired. */
  lemma {:induction false} AcceptedWasIssued(mac: Mac, run: seq<Attempt>, issued: seq<Issued>, i: nat)
    requires OnlyIssued(mac, run, issued) && i < |run| && VerdictAt(mac, run, i).Accepted?
    ensures exists k :: 0 <= k < |issued| && issued[k].email == run[i].email
                        && issued[k].nonce == NonceOf(mac, run[i].token) && run[i].now <= issued[k].now + 1200
  {
    var a := run[i];
    assert Check(mac, UsedBefore(mac, run, i), a.email, a.token, a.now).Accepted?;
    hide *;
    AcceptedMeans(mac, UsedBefore(mac, run, i), a.email, a.token, a.now);
    var k := IssuedPayload(mac, run, issued, i);
    IssuedMeans(RSplit(a.token, '|').value.0, issued[k]);
  }

  lemma IssuedPayload(mac: Mac, run: seq<Attempt>, issued: seq<Issued>, i: nat) returns (k: nat)
    requires OnlyIssued(mac, run, issued) && i < |run| && RSplit(run[i].token, '|').Some?
    requires FromHex(RSplit(run[i].token, '|').value.1) == Some(mac(RSplit(run[i].token, '|').value.0))
    ensures k < |issued| && IsPayloadOf(RSplit(run[i].token, '|').value.0, issued[k])
  {
    hide RSplit, FromHex, IsPayloadOf;
    k :| 0 <= k < |issued| && IsPayloadOf(RSplit(run[i].token, '|').value.0, issued[k]);
  }

  /** The fields of an issued payload that splits into four. */
  lemma IssuedMeans(payload: string, t: Issued)
    requires IsPayloadOf(payload, t) && |Split(payload, '|')| == 4
    ensures var parts := Split(payload, '|');
            parts[0] == t.email && PyInt(parts[2]) == Some(t.now + 1200) && parts[3] == t.nonce
  {
    hide Split, Payload, PyInt, DecimalInt;
    PayloadFields(t.email, t.now + 1200, t.nonce);
    PyIntOfDecimal(t.now + 1200);
  }

  lemma AcceptedMeans(mac: Mac, used: set<string>, email: string, token: string, now: int)
    requires Check(mac, used, email, token, now).Accepted?
    ensures RSplit(token, '|').Some?
    ensures var (payload, tag) := RSplit(token, '|').value;
            var parts := Split(payload, '|');
            && FromHex(tag) == Some(mac(payload))
            && |parts| == 4 && parts[0] == email && NonceOf(mac, token) == parts[3]
            && PyInt(parts[2]).Some? && now <= PyInt(parts[2]).value
  {
    hide Split, RSplit, FromHex, PyInt;
  }

  function AcceptedCount(mac: Mac, run: seq<Attempt>, n: nat): nat
    requires n <= |run|
  {
    if n == 0 then 0
    else AcceptedCount(mac, run, n - 1) + if VerdictAt(mac, run, n - 1).Accepted? then 1 else 0
  }

  lemma UsedNone(mac: Mac, run: seq<Attempt>)
    ensures UsedBefore(mac, run, 0) == {}
  {
  }

  lemma UsedStep(mac: Mac, run: seq<Attempt>, i: nat)
    requires i < |run|
    ensures UsedBefore(mac, run, i + 1) == UsedBefore(mac, run, i)
            + if VerdictAt(mac, run, i).Accepted? then {NonceOf(mac, run[i].token)} else {}
  {
    hide VerdictAt, NonceOf;
  }

  lemma {:induction false} CountIsUsed(mac: Mac, run: seq<Attempt>, n: nat)
    requires n <= |run|
    ensures AcceptedCount(mac, run, n) == |UsedBefore(mac, run, n)|
  {
    hide VerdictAt, NonceOf, UsedBefore;
    if n == 0 {
      UsedNone(mac, run);
    } else {
      CountIsUsed(mac, run, n - 1);
      FreshNonce(mac, run, n - 1);
      UsedStep(mac, run, n - 1);
    }
  }

  lemma {:induction false} FreshNonce(mac: Mac, run: seq<Attempt>, i: nat)
    requires i < |run|
    ensures VerdictAt(mac, run, i).Accepted? ==> NonceOf(mac, run[i].token) !in UsedBefore(mac, run, i)
  {
    hide SignedFields, UsedBefore, PyInt;
  }

  function Nonces(issued: seq<Issued>): set<string> {
    set k | 0 <= k < |issued| :: issued[k].nonce
  }

  lemma {:induction false} NoncesSize(issued: seq<Issued>)
    ensures |Nonces(issued)| <= |issued|
  {
    if issued == [] {
      assert Nonces(issued) == {};
    } else {
      var init := issued[..|issued| - 1];
      NoncesSize(init);
      assert Nonces(issued) == Nonces(init) + {issued[|issued| - 1].nonce} by {
        assert forall k :: 0 <= k < |init| ==> init[k] == issued[k];
        forall x | x in Nonces(init)
          ensures x in Nonces(issued)
        {
          var k :| 0 <= k < |init| && init[k].nonce == x;
          assert issued[k].nonce == x;
        }
      }
    }
  }

  /** Without forgery no run accepts more tokens than were issued. */
  lemma {:induction false} NoMoreThanIssued(mac: Mac, run: seq<Attempt>, issued: seq<Issued>)
    requires OnlyIssued(mac, run, issued)
    ensures AcceptedCount(mac, run, |run|) <= |issued|
  {
    CountIsUsed(mac, run, |run|);
    NoncesSize(issued);
    var used := UsedBefore(mac, run, |run|);
    forall nonce | nonce in used
      ensures nonce in Nonces(issued)
    {
      UsedBeforeIs(mac, run, |run|, nonce);
      var j :| 0 <= j < |run| && VerdictAt(mac, run, j).Accepted? && NonceOf(mac, run[j].token) == nonce;
      AcceptedWasIssued(mac, run, issued, j);
    }
    SubsetSize(used, Nonces(issued));
  }

  lemma SubsetSize<T>(a: set<T>, b: set<T>)
    requires a <= b
    ensures |a| <= |b|
  {
    assert b == a + (b - a);
  }

  // ---------------------------------------------------------------- the predictable design

  /** The planted defect: a hash of the email and a counter, recomputed for counters 1 to 1000. */
  function PredictableToken(hash: string -> string, email: string, counter: nat): string {
    hash(email + ":" + Decimal(counter))
  }

  predicate PredictableVerify(hash: string -> string, email: string, token: string) {
    exists c: nat :: 1 <= c <= 1000 && token == PredictableToken(hash, email, c)
  }

  /** Its forged token always verifies, while a token it really issued verifies exactly as long as its
      counter has not passed 1000, if the hash does not collide on this email's counters. */
  lemma PredictableVerifiesIff(hash: string -> string, email: string, counter: nat)
    requires forall c: nat {:trigger PredictableToken(hash, email, c)} ::
               PredictableToken(hash, email, c) == PredictableToken(hash, email, counter) ==>
               email + ":" + Decimal(c) == email + ":" + Decimal(counter)
    ensures PredictableVerify(hash, email, PredictableToken(hash, email, 1))
    ensures PredictableVerify(hash, email, PredictableToken(hash, email, counter)) <==> 1 <= counter <= 1000
  {
    if PredictableVerify(hash, email, PredictableToken(hash, email, counter)) {
      var c: nat :| 1 <= c <= 1000 && PredictableToken(hash, email, counter) == PredictableToken(hash, email, c);
      var p := email + ":";
      assert Decimal(c) == (p + Decimal(c))[|p|..] == (p + Decimal(counter))[|p|..] == Decimal(counter);
      DecimalRoundTrip(c);
      DecimalRoundTrip(counter);
    }
  }
}
