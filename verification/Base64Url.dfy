/** The unpadded base64url codec of compact tokens (section 5 of RFC 4648, Appendix C of RFC 7515). */
module Base64Url {
  import opened Text

  predicate InAlphabet(c: char) {
    'A' <= c <= 'Z' || 'a' <= c <= 'z' || IsDigit(c) || c == '-' || c == '_'
  }

  predicate AllInAlphabet(s: string) {
    forall i :: 0 <= i < |s| ==> InAlphabet(s[i])
  }

  function SextetChar(v: nat): char
    requires v < 64
  {
    if v < 26 then ('A' as int + v) as char
    else if v < 52 then ('a' as int + v - 26) as char
    else if v < 62 then ('0' as int + v - 52) as char
    else if v == 62 then '-' else '_'
  }

  function Sextet(c: char): (v: nat)
    requires InAlphabet(c)
    ensures v < 64
  {
    if 'A' <= c <= 'Z' then c as int - 'A' as int
    else if 'a' <= c <= 'z' then c as int - 'a' as int + 26
    else if IsDigit(c) then c as int - '0' as int + 52
    else if c == '-' then 62 else 63
  }

  lemma SextetOfChar(v: nat)
    requires v < 64
    ensures InAlphabet(SextetChar(v)) && Sextet(SextetChar(v)) == v
  {
  }

  lemma CharOfSextet(c: char)
    requires InAlphabet(c)
    ensures SextetChar(Sextet(c)) == c
  {
  }

  /** `n` consecutive characters from `first` on. */
  function Consecutive(first: char, n: nat): string
    requires first as int + n <= 128
  {
    seq(n, i requires 0 <= i < n => (first as int + i) as char)
  }

  /** The alphabet of table 2 in RFC 4648, with its last two characters replaced as the urlsafe variant
      does: every value stands at its own position. */
  lemma AlphabetInOrder(v: nat)
    requires v < 64
    ensures var table := Consecutive('A', 26) + Consecutive('a', 26) + Consecutive('0', 10) + "-_";
            |table| == 64 && SextetChar(v) == table[v]
  {
    var upper, lower := Consecutive('A', 26), Consecutive('a', 26);
    var table := upper + lower + Consecutive('0', 10) + "-_";
    if v < 26 {
      assert table[v] == upper[v];
    } else if v < 52 {
      assert table[v] == lower[v - 26];
    }
  }

  /** `base64.urlsafe_b64encode`: groups of three bytes, the last one padded with equals signs. */
  function Encode(raw: Bytes): string {
    if raw == [] then ""
    else if |raw| == 1 then
      [SextetChar(raw[0] / 4), SextetChar(raw[0] % 4 * 16), '=', '=']
    else if |raw| == 2 then
      [SextetChar(raw[0] / 4), SextetChar(raw[0] % 4 * 16 + raw[1] / 16), SextetChar(raw[1] % 16 * 4), '=']
    else
      EncodeGroup(raw[0], raw[1], raw[2]) + Encode(raw[3..])
  }

  function EncodeGroup(a: Byte, b: Byte, c: Byte): string {
    [SextetChar(a / 4), SextetChar(a % 4 * 16 + b / 16), SextetChar(b % 16 * 4 + c / 64), SextetChar(c % 64)]
  }

  /** `s.rstrip(c)`. */
  function RStrip(s: string, c: char): string {
    if s != "" && s[|s| - 1] == c then RStrip(s[..|s| - 1], c) else s
  }

  function Equals(n: nat): string {
    seq(n, _ => '=')
  }

  /** `_b64u`. */
  function B64u(raw: Bytes): string {
    RStrip(Encode(raw), '=')
  }

  /** Bytes of a padded text, or None when it is not one. */
  function Decode(s: string): Option<Bytes> {
    if s == "" then Some([])
    else if |s| < 4 || !InAlphabet(s[0]) || !InAlphabet(s[1]) then None
    else if |s| == 4 && s[2] == '=' && s[3] == '=' then Some([Sextet(s[0]) * 4 + Sextet(s[1]) / 16])
    else if !InAlphabet(s[2]) then None
    else if |s| == 4 && s[3] == '=' then
      Some([Sextet(s[0]) * 4 + Sextet(s[1]) / 16, Sextet(s[1]) % 16 * 16 + Sextet(s[2]) / 4])
    else if !InAlphabet(s[3]) then None
    else match Decode(s[4..])
      case None => None
      case Some(rest) => Some(DecodeGroup(Sextet(s[0]), Sextet(s[1]), Sextet(s[2]), Sextet(s[3])) + rest)
  }

  function DecodeGroup(p: nat, q: nat, r: nat, t: nat): Bytes
    requires p < 64 && q < 64 && r < 64 && t < 64
  {
    [p * 4 + q / 16, q % 16 * 16 + r / 4, r % 4 * 64 + t]
  }

  /** `_b64u_decode`: Python's `-len(seg) % 4` equals signs are put back first. */
  function B64uDecode(seg: string): Option<Bytes> {
    Decode(seg + Equals(-|seg| % 4))
  }

  // ---------------------------------------------------------------- padding

  /** The text without its padding. */
  function Body(raw: Bytes): string {
    if raw == [] then ""
    else if |raw| == 1 then [SextetChar(raw[0] / 4), SextetChar(raw[0] % 4 * 16)]
    else if |raw| == 2 then
      [SextetChar(raw[0] / 4), SextetChar(raw[0] % 4 * 16 + raw[1] / 16), SextetChar(raw[1] % 16 * 4)]
    else EncodeGroup(raw[0], raw[1], raw[2]) + Body(raw[3..])
  }

  /** A group spells the same 24-bit number in four sextets as its bytes do in three octets, whatever
      part of it is padding. */
  lemma GroupKeepsBits(a: Byte, b: Byte, c: Byte)
    ensures var g := EncodeGroup(a, b, c);
            && |g| == 4 && AllInAlphabet(g)
            && ((Sextet(g[0]) * 64 + Sextet(g[1])) * 64 + Sextet(g[2])) * 64 + Sextet(g[3]) == (a * 256 + b) * 256 + c
    ensures Encode([a]) == EncodeGroup(a, 0, 0)[..2] + "=="
    ensures Encode([a, b]) == EncodeGroup(a, b, 0)[..3] + "="
  {
    GroupInAlphabet(a, b, c);
    SextetOfChar(a / 4);
    SextetOfChar(a % 4 * 16 + b / 16);
    SextetOfChar(b % 16 * 4 + c / 64);
    SextetOfChar(c % 64);
    hide SextetChar, Sextet, InAlphabet;
    EncodeOne(a);
    EncodeTwo(a, b);
    hide Encode;
    assert a % 4 * 16 + 0 / 16 == a % 4 * 16 && b % 16 * 4 + 0 / 64 == b % 16 * 4;
  }

  lemma GroupInAlphabet(a: Byte, b: Byte, c: Byte)
    ensures |EncodeGroup(a, b, c)| == 4 && AllInAlphabet(EncodeGroup(a, b, c))
  {
    SextetOfChar(a / 4);
    SextetOfChar(a % 4 * 16 + b / 16);
    SextetOfChar(b % 16 * 4 + c / 64);
    SextetOfChar(c % 64);
  }

  /** Padding fills the last group, whose unpadded length is never 1 modulo 4. */
  lemma {:induction false} EncodeIsBodyPadded(raw: Bytes)
    ensures Encode(raw) == Body(raw) + Equals(-|Body(raw)| % 4)
    ensures AllInAlphabet(Body(raw))
    ensures |Body(raw)| == (4 * |raw| + 2) / 3 && |Body(raw)| % 4 != 1
  {
    hide SextetChar, InAlphabet, EncodeGroup, AllInAlphabet;
    if |raw| < 3 {
      LastGroup(raw);
    } else {
      hide Equals;
      GroupInAlphabet(raw[0], raw[1], raw[2]);
      EncodeIsBodyPadded(raw[3..]);
      LengthStep(|raw|, |Body(raw[3..])|);
      PadAfterGroup(EncodeGroup(raw[0], raw[1], raw[2]), Body(raw[3..]));
    }
  }

  lemma LengthStep(n: nat, m: nat)
    requires n >= 3 && m == (4 * (n - 3) + 2) / 3
    ensures 4 + m == (4 * n + 2) / 3 && (4 + m) % 4 == m % 4
  {
  }

  lemma LastGroup(raw: Bytes)
    requires |raw| < 3
    ensures Encode(raw) == Body(raw) + Equals(-|Body(raw)| % 4)
    ensures AllInAlphabet(Body(raw))
    ensures |Body(raw)| == (4 * |raw| + 2) / 3 && |Body(raw)| % 4 != 1
  {
    hide SextetChar, InAlphabet;
    if |raw| == 1 {
      SextetOfChar(raw[0] / 4);
      SextetOfChar(raw[0] % 4 * 16);
      assert Equals(2) == "==";
    } else if |raw| == 2 {
      SextetOfChar(raw[0] / 4);
      SextetOfChar(raw[0] % 4 * 16 + raw[1] / 16);
      SextetOfChar(raw[1] % 16 * 4);
      assert Equals(1) == "=";
    }
  }

  lemma PadAfterGroup(g: string, rest: string)
    requires |g| == 4
    ensures (g + rest) + Equals(-|g + rest| % 4) == g + (rest + Equals(-|rest| % 4))
    ensures AllInAlphabet(g) && AllInAlphabet(rest) ==> AllInAlphabet(g + rest)
  {
    assert -|g + rest| % 4 == -|rest| % 4;
  }

  lemma {:induction false} RStripPadding(body: string, n: nat)
    requires AllInAlphabet(body)
    ensures RStrip(body + Equals(n), '=') == body
  {
    var s := body + Equals(n);
    if n == 0 {
      assert s == body;
      assert body != "" ==> InAlphabet(body[|body| - 1]);
    } else {
      assert s[..|s| - 1] == body + Equals(n - 1);
      RStripPadding(body, n - 1);
    }
  }

  /** What the encoder strips is what the decoder puts back, and the segment is plain alphabet. */
  lemma PaddingRestored(raw: Bytes)
    ensures B64u(raw) + Equals(-|B64u(raw)| % 4) == Encode(raw)
    ensures AllInAlphabet(B64u(raw)) && '.' !in B64u(raw) && '=' !in B64u(raw)
    ensures |B64u(raw)| == (4 * |raw| + 2) / 3 && |B64u(raw)| % 4 != 1
  {
    EncodeIsBodyPadded(raw);
    RStripPadding(Body(raw), -|Body(raw)| % 4);
  }

  // ---------------------------------------------------------------- round trips

  lemma DecodeEncodeGroup(a: Byte, b: Byte, c: Byte)
    ensures DecodeGroup(a / 4, a % 4 * 16 + b / 16, b % 16 * 4 + c / 64, c % 64) == [a, b, c]
  {
  }

  lemma DecodeStep(p: nat, q: nat, r: nat, t: nat, rest: string)
    requires p < 64 && q < 64 && r < 64 && t < 64
    ensures Decode([SextetChar(p), SextetChar(q), SextetChar(r), SextetChar(t)] + rest) ==
            match Decode(rest) case None => None case Some(b) => Some(DecodeGroup(p, q, r, t) + b)
  {
    SextetOfChar(p);
    SextetOfChar(q);
    SextetOfChar(r);
    SextetOfChar(t);
    assert SextetChar(r) != '=' && SextetChar(t) != '=';
    hide SextetChar, Sextet, InAlphabet;
    var s := [SextetChar(p), SextetChar(q), SextetChar(r), SextetChar(t)] + rest;
    assert s[4..] == rest;
    hide DecodeGroup;
  }

  lemma DecodeTail(p: nat, q: nat, r: nat)
    requires p < 64 && q < 64 && r < 64
    ensures Decode([SextetChar(p), SextetChar(q), '=', '=']) == Some([p * 4 + q / 16])
    ensures Decode([SextetChar(p), SextetChar(q), SextetChar(r), '=']) ==
            Some([p * 4 + q / 16, q % 16 * 16 + r / 4])
  {
    SextetOfChar(p);
    SextetOfChar(q);
    SextetOfChar(r);
    assert SextetChar(r) != '=';
    hide SextetChar, Sextet, InAlphabet;
  }

  lemma SextetsOfBytes(a: Byte, b: Byte)
    ensures a / 4 * 4 + a % 4 * 16 / 16 == a
    ensures a / 4 * 4 + (a % 4 * 16 + b / 16) / 16 == a
    ensures (a % 4 * 16 + b / 16) % 16 * 16 + b % 16 * 4 / 4 == b
  {
  }

  lemma EncodeOne(a: Byte)
    ensures Encode([a]) == [SextetChar(a / 4), SextetChar(a % 4 * 16), '=', '=']
  {
    hide SextetChar;
  }

  lemma EncodeTwo(a: Byte, b: Byte)
    ensures Encode([a, b]) == [SextetChar(a / 4), SextetChar(a % 4 * 16 + b / 16), SextetChar(b % 16 * 4), '=']
  {
    hide SextetChar;
  }

  lemma DecodeEncodeShort(a: Byte, b: Byte)
    ensures Decode(Encode([a])) == Some([a])
    ensures Decode(Encode([a, b])) == Some([a, b])
  {
    hide Decode, Encode, SextetChar;
    SextetsOfBytes(a, b);
    EncodeOne(a);
    DecodeTail(a / 4, a % 4 * 16, 0);
    EncodeTwo(a, b);
    DecodeTail(a / 4, a % 4 * 16 + b / 16, b % 16 * 4);
  }

  lemma DecodeNone()
    ensures Decode("") == Some([])
  {
  }

  lemma {:induction false} DecodeEncode(raw: Bytes)
    ensures Decode(Encode(raw)) == Some(raw)
  {
    hide Decode, SextetChar, DecodeGroup;
    if |raw| < 3 {
      if raw != [] {
        DecodeEncodeShort(raw[0], raw[|raw| - 1]);
        assert raw == if |raw| == 1 then [raw[0]] else [raw[0], raw[1]];
      } else {
        DecodeNone();
      }
    } else {
      DecodeEncode(raw[3..]);
      DecodeStep(raw[0] / 4, raw[0] % 4 * 16 + raw[1] / 16, raw[1] % 16 * 4 + raw[2] / 64, raw[2] % 64,
                 Encode(raw[3..]));
      DecodeEncodeGroup(raw[0], raw[1], raw[2]);
      assert raw == [raw[0], raw[1], raw[2]] + raw[3..];
    }
  }

  /** Every byte string comes back from its segment. */
  lemma RoundTrip(raw: Bytes)
    ensures B64uDecode(B64u(raw)) == Some(raw)
  {
    PaddingRestored(raw);
    DecodeEncode(raw);
  }

  lemma Injective(a: Bytes, b: Bytes)
    requires B64u(a) == B64u(b)
    ensures a == b
  {
    RoundTrip(a);
    RoundTrip(b);
  }

  /** The bits the last character carries beyond the last byte. */
  predicate SpareBitsClear(seg: string)
    requires AllInAlphabet(seg)
  {
    && (|seg| % 4 == 2 ==> Sextet(seg[|seg| - 1]) % 16 == 0)
    && (|seg| % 4 == 3 ==> Sextet(seg[|seg| - 1]) % 4 == 0)
  }

  function Chars(p: nat, q: nat, r: nat, t: nat): string
    requires p < 64 && q < 64 && r < 64 && t < 64
  {
    [SextetChar(p), SextetChar(q), SextetChar(r), SextetChar(t)]
  }

  lemma BodyStep(p: nat, q: nat, r: nat, t: nat, rest: Bytes)
    requires p < 64 && q < 64 && r < 64 && t < 64
    ensures Body(DecodeGroup(p, q, r, t) + rest) == Chars(p, q, r, t) + Body(rest)
  {
    hide SextetChar;
    var raw := DecodeGroup(p, q, r, t) + rest;
    assert raw[3..] == rest;
    assert raw[0] / 4 == p && raw[0] % 4 * 16 + raw[1] / 16 == q;
    assert raw[1] % 16 * 4 + raw[2] / 64 == r && raw[2] % 64 == t;
  }

  /** The first four characters of a segment decode by themselves. */
  lemma LeadingGroup(seg: string)
    requires AllInAlphabet(seg) && |seg| >= 4
    ensures AllInAlphabet(seg[4..])
    ensures var p, q, r, t := Sextet(seg[0]), Sextet(seg[1]), Sextet(seg[2]), Sextet(seg[3]);
            && seg[..4] == Chars(p, q, r, t)
            && B64uDecode(seg) == match B64uDecode(seg[4..]) case None => None
                                  case Some(b) => Some(DecodeGroup(p, q, r, t) + b)
  {
    var p, q, r, t := Sextet(seg[0]), Sextet(seg[1]), Sextet(seg[2]), Sextet(seg[3]);
    CharOfSextet(seg[0]);
    CharOfSextet(seg[1]);
    CharOfSextet(seg[2]);
    CharOfSextet(seg[3]);
    hide Decode, DecodeGroup, SextetChar, Sextet, InAlphabet;
    var rest := seg[4..];
    assert -|seg| % 4 == -|rest| % 4;
    assert seg + Equals(-|seg| % 4) == Chars(p, q, r, t) + (rest + Equals(-|rest| % 4));
    DecodeStep(p, q, r, t, rest + Equals(-|rest| % 4));
  }

  lemma SpareBitsStep(seg: string)
    requires AllInAlphabet(seg) && |seg| >= 4
    ensures AllInAlphabet(seg[4..]) && (SpareBitsClear(seg) <==> SpareBitsClear(seg[4..]))
  {
    hide Sextet, InAlphabet;
    assert |seg| % 4 == |seg[4..]| % 4;
  }

  lemma ShortOf(p: nat, q: nat, r: nat)
    requires p < 64 && q < 64 && r < 64
    ensures Body([p * 4 + q / 16]) == [SextetChar(p), SextetChar(q)] <==> q % 16 == 0
    ensures Body([p * 4 + q / 16, q % 16 * 16 + r / 4]) == [SextetChar(p), SextetChar(q), SextetChar(r)] <==> r % 4 == 0
  {
    var one: Bytes := [p * 4 + q / 16];
    var two: Bytes := [p * 4 + q / 16, q % 16 * 16 + r / 4];
    SextetOfChar(q);
    SextetOfChar(q / 16 * 16);
    SextetOfChar(r);
    SextetOfChar(r / 4 * 4);
    hide SextetChar, Sextet, InAlphabet;
    assert one[0] / 4 == p && one[0] % 4 * 16 == q / 16 * 16;
    assert two[0] / 4 == p && two[0] % 4 * 16 + two[1] / 16 == q && two[1] % 16 * 4 == r / 4 * 4;
    assert Body(one) == [SextetChar(p), SextetChar(q / 16 * 16)];
    assert Body(two) == [SextetChar(p), SextetChar(q), SextetChar(r / 4 * 4)];
    assert Body(one)[1] == SextetChar(q / 16 * 16) && Body(two)[2] == SextetChar(r / 4 * 4);
  }

  lemma ShortSegment(seg: string)
    requires AllInAlphabet(seg) && |seg| < 4
    ensures B64uDecode(seg).Some? <==> |seg| % 4 != 1
    ensures B64uDecode(seg).Some? ==> (Body(B64uDecode(seg).value) == seg <==> SpareBitsClear(seg))
  {
    var s := seg + Equals(-|seg| % 4);
    if |seg| == 1 {
      assert s[1] == '=';
    } else if |seg| == 2 {
      var p, q := Sextet(seg[0]), Sextet(seg[1]);
      CharOfSextet(seg[0]);
      CharOfSextet(seg[1]);
      hide SextetChar, Sextet, InAlphabet, Decode, Body;
      assert s == [SextetChar(p), SextetChar(q), '=', '='];
      assert seg == [SextetChar(p), SextetChar(q)];
      DecodeTail(p, q, 0);
      ShortOf(p, q, 0);
    } else if |seg| == 3 {
      var p, q, r := Sextet(seg[0]), Sextet(seg[1]), Sextet(seg[2]);
      CharOfSextet(seg[0]);
      CharOfSextet(seg[1]);
      CharOfSextet(seg[2]);
      hide SextetChar, Sextet, InAlphabet, Decode, Body;
      assert s == [SextetChar(p), SextetChar(q), SextetChar(r), '='];
      assert seg == [SextetChar(p), SextetChar(q), SextetChar(r)];
      DecodeTail(p, q, r);
      ShortOf(p, q, r);
    } else {
      assert seg == "" && s == "";
    }
  }

  predicate DecodesAsBody(seg: string)
    requires AllInAlphabet(seg)
  {
    && (B64uDecode(seg).Some? <==> |seg| % 4 != 1)
    && (B64uDecode(seg).Some? ==> (Body(B64uDecode(seg).value) == seg <==> SpareBitsClear(seg)))
  }

  lemma {:induction false} DecodesBody(seg: string)
    requires AllInAlphabet(seg)
    ensures DecodesAsBody(seg)
    decreases |seg|
  {
    if |seg| < 4 {
      ShortSegment(seg);
    } else {
      LeadingGroup(seg);
      DecodesBody(seg[4..]);
      hide DecodesAsBody;
      GroupKeeps(seg);
    }
  }

  lemma GroupKeeps(seg: string)
    requires AllInAlphabet(seg) && |seg| >= 4 && AllInAlphabet(seg[4..]) && DecodesAsBody(seg[4..])
    ensures DecodesAsBody(seg)
  {
    hide B64uDecode, SpareBitsClear, Sextet, InAlphabet, Body, Chars, DecodeGroup;
    var rest := seg[4..];
    var p, q, r, t := Sextet(seg[0]), Sextet(seg[1]), Sextet(seg[2]), Sextet(seg[3]);
    hide AllInAlphabet;
    LeadingGroup(seg);
    SpareBitsStep(seg);
    assert |seg| == |rest| + 4;
    if B64uDecode(rest).Some? {
      GroupThen(seg, p, q, r, t, B64uDecode(rest).value);
    }
  }

  lemma GroupThen(seg: string, p: nat, q: nat, r: nat, t: nat, b: Bytes)
    requires |seg| >= 4 && p < 64 && q < 64 && r < 64 && t < 64 && seg[..4] == Chars(p, q, r, t)
    ensures Body(DecodeGroup(p, q, r, t) + b) == seg <==> Body(b) == seg[4..]
  {
    hide Body, Chars, DecodeGroup;
    BodyStep(p, q, r, t, b);
    HeadEqual(seg, Body(b));
  }

  lemma HeadEqual(seg: string, tail: string)
    requires |seg| >= 4
    ensures seg[..4] + tail == seg <==> tail == seg[4..]
  {
    if seg[..4] + tail == seg {
      assert (seg[..4] + tail)[4..] == tail;
    }
    assert seg == seg[..4] + seg[4..];
  }

  /** An unpadded segment decodes exactly when its length is not 1 modulo 4, and is the encoding of
      what it decodes to exactly when its spare bits are clear (section 3.5 of RFC 4648). */
  lemma DecodesIff(seg: string)
    requires AllInAlphabet(seg)
    ensures B64uDecode(seg).Some? <==> |seg| % 4 != 1
    ensures B64uDecode(seg).Some? ==> (B64u(B64uDecode(seg).value) == seg <==> SpareBitsClear(seg))
  {
    DecodesBody(seg);
    if B64uDecode(seg).Some? {
      var raw := B64uDecode(seg).value;
      EncodeIsBodyPadded(raw);
      RStripPadding(Body(raw), -|Body(raw)| % 4);
    }
  }
}
