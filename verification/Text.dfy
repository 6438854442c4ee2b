/** Options and bytes, and strings as Python sees them: decimal printing, `split` and `rsplit`, `strip`,
    substrings and hexadecimal. */
module Text {
  datatype Option<+T> = None | Some(value: T) {
    function GetOr(default: T): T {
      match this case Some(v) => v case None => default
    }
  }

  type Byte = n: nat | n < 256
  type Bytes = seq<Byte>

  // ---------------------------------------------------------------- decimal

  predicate IsDigit(c: char) {
    '0' <= c <= '9'
  }

  predicate AllDigits(s: string) {
    forall i :: 0 <= i < |s| ==> IsDigit(s[i])
  }

  function Digit(d: nat): char
    requires d < 10
  {
    ('0' as int + d) as char
  }

  function DigitValue(c: char): nat
    requires IsDigit(c)
  {
    c as int - '0' as int
  }

  /** `str(n)` for a natural number. */
  function Decimal(n: nat): string {
    if n < 10 then [Digit(n)] else Decimal(n / 10) + [Digit(n % 10)]
  }

  /** `str(n)` for any integer. */
  function DecimalInt(n: int): string {
    if n < 0 then "-" + Decimal(-n) else Decimal(n)
  }

  /** `int(s)` for a string of decimal digits. */
  function NatValue(s: string): nat
    requires AllDigits(s)
  {
    if s == "" then 0 else NatValue(s[..|s| - 1]) * 10 + DigitValue(s[|s| - 1])
  }

  lemma {:induction false} DecimalRoundTrip(n: nat)
    ensures AllDigits(Decimal(n)) && Decimal(n) != ""
    ensures NatValue(Decimal(n)) == n
  {
    if n < 10 {
      assert Decimal(n)[..0] == "";
    } else {
      DecimalRoundTrip(n / 10);
      assert Decimal(n)[..|Decimal(n)| - 1] == Decimal(n / 10);
    }
  }

  lemma {:induction false} DecimalIntInjective(m: int, n: int)
    requires DecimalInt(m) == DecimalInt(n)
    ensures m == n
  {
    var am, an := if m < 0 then -m else m, if n < 0 then -n else n;
    DecimalRoundTrip(am);
    DecimalRoundTrip(an);
    assert IsDigit(Decimal(am)[0]) && IsDigit(Decimal(an)[0]);
    if m < 0 && n < 0 {
      assert Decimal(-m) == DecimalInt(m)[1..] == DecimalInt(n)[1..] == Decimal(-n);
    }
  }

  /** No character of a printed integer is outside the digits and the minus sign. */
  lemma DecimalIntAlphabet(n: int, c: char)
    requires !IsDigit(c) && c != '-'
    ensures c !in DecimalInt(n)
  {
    DecimalRoundTrip(if n < 0 then -n else n);
  }

  /** Length of the longest prefix of digits. */
  function DigitRun(s: string): (n: nat)
    ensures n <= |s| && forall k :: 0 <= k < n ==> IsDigit(s[k])
    ensures n < |s| ==> !IsDigit(s[n])
  {
    if s == "" || !IsDigit(s[0]) then 0
    else
      assert forall i :: 0 < i < |s| ==> s[i] == s[1..][i - 1];
      1 + DigitRun(s[1..])
  }

  lemma DigitRunOf(digits: string, rest: string)
    requires AllDigits(digits)
    requires rest != "" ==> !IsDigit(rest[0])
    ensures DigitRun(digits + rest) == |digits|
  {
    var s := digits + rest;
    assert forall k :: 0 <= k < |digits| ==> s[k] == digits[k];
    assert rest != "" ==> s[|digits|] == rest[0];
  }

  // ---------------------------------------------------------------- split and join

  /** Index of the first `c`, or the length of `s`. */
  function Find(s: string, c: char): (n: nat)
    ensures n <= |s| && forall k :: 0 <= k < n ==> s[k] != c
    ensures n < |s| ==> s[n] == c
  {
    if s == "" || s[0] == c then 0
    else
      assert forall i :: 0 < i < |s| ==> s[i] == s[1..][i - 1];
      1 + Find(s[1..], c)
  }

  /** `s.split(sep)`. */
  function Split(s: string, sep: char): seq<string>
    decreases |s|
  {
    var i := Find(s, sep);
    if i == |s| then [s] else [s[..i]] + Split(s[i + 1..], sep)
  }

  /** `sep.join(parts)`. */
  function Join(parts: seq<string>, sep: char): string
    requires |parts| > 0
  {
    if |parts| == 1 then parts[0] else parts[0] + [sep] + Join(parts[1..], sep)
  }

  lemma {:induction false} SplitConcat(a: string, sep: char, b: string)
    ensures Split(a + [sep] + b, sep) == Split(a, sep) + Split(b, sep)
    decreases |a|
  {
    hide Find;
    var s := a + [sep] + b;
    var i := Find(a, sep);
    SplitStep(s, sep, i);
    assert s[..i] == a[..i];
    if i == |a| {
      assert s[i + 1..] == b;
      assert a[..i] == a;
    } else {
      assert s[i + 1..] == a[i + 1..] + [sep] + b;
      SplitConcat(a[i + 1..], sep, b);
      SplitStep(a, sep, i);
      assert Split(s, sep) == [a[..i]] + (Split(a[i + 1..], sep) + Split(b, sep)) by { hide Split; }
    }
  }

  lemma SplitStep(s: string, sep: char, i: nat)
    requires i < |s| && s[i] == sep && forall k :: 0 <= k < i ==> s[k] != sep
    ensures Split(s, sep) == [s[..i]] + Split(s[i + 1..], sep)
  {
    hide Find;
    assert Find(s, sep) == i;
  }

  lemma {:induction false} SplitParts(s: string, sep: char)
    ensures |Split(s, sep)| >= 1
    ensures forall p :: p in Split(s, sep) ==> sep !in p
    ensures Join(Split(s, sep), sep) == s
    ensures |Split(s, sep)| == 1 <==> sep !in s
    decreases |s|
  {
    hide Find;
    var i := Find(s, sep);
    if i < |s| {
      SplitParts(s[i + 1..], sep);
      SplitStep(s, sep, i);
      SplitPartsStep(s, sep, i, Split(s[i + 1..], sep));
    } else {
      assert s[..i] == s;
    }
  }

  lemma SplitPartsStep(s: string, sep: char, i: nat, rest: seq<string>)
    requires i < |s| && s[i] == sep && |rest| >= 1 && Join(rest, sep) == s[i + 1..]
    ensures Join([s[..i]] + rest, sep) == s
  {
    var parts := [s[..i]] + rest;
    assert parts[1..] == rest;
    assert s == s[..i] + [sep] + s[i + 1..];
  }

  /** Splitting what was joined gives the parts back, exactly when no part holds the separator. */
  lemma {:induction false} SplitJoin(parts: seq<string>, sep: char)
    requires |parts| > 0
    ensures Split(Join(parts, sep), sep) == parts <==> forall p :: p in parts ==> sep !in p
  {
    if forall p :: p in parts ==> sep !in p {
      SplitJoinFree(parts, sep);
    } else {
      SplitParts(Join(parts, sep), sep);
    }
  }

  lemma {:induction false} SplitJoinFree(parts: seq<string>, sep: char)
    requires |parts| > 0
    requires forall p :: p in parts ==> sep !in p
    ensures Split(Join(parts, sep), sep) == parts
  {
    assert parts[0] in parts;
    SplitParts(parts[0], sep);
    if |parts| > 1 {
      SplitJoinFree(parts[1..], sep);
      SplitConcat(parts[0], sep, Join(parts[1..], sep));
      assert Split(parts[0], sep) == [parts[0]];
      assert parts == [parts[0]] + parts[1..];
    }
  }

  /** `s.rsplit(sep, 1)`, or None where Python returns a single part. */
  function RSplit(s: string, sep: char): (r: Option<(string, string)>)
    ensures r.None? <==> sep !in s
    ensures r.Some? ==> s == r.value.0 + [sep] + r.value.1 && sep !in r.value.1
  {
    if s == "" then None
    else if s[|s| - 1] == sep then
      assert s == s[..|s| - 1] + [sep] + "";
      Some((s[..|s| - 1], ""))
    else
      assert s == s[..|s| - 1] + [s[|s| - 1]];
      match RSplit(s[..|s| - 1], sep)
      case None => None
      case Some(p) => Some((p.0, p.1 + [s[|s| - 1]]))
  }

  lemma {:induction false} RSplitUnique(a: string, sep: char, b: string)
    requires sep !in b
    ensures RSplit(a + [sep] + b, sep) == Some((a, b))
    decreases |b|
  {
    var s := a + [sep] + b;
    if b == "" {
      assert s[..|s| - 1] == a;
    } else {
      assert s[..|s| - 1] == a + [sep] + b[..|b| - 1];
      RSplitUnique(a, sep, b[..|b| - 1]);
      assert b[..|b| - 1] + [b[|b| - 1]] == b;
    }
  }

  // ---------------------------------------------------------------- hexadecimal

  function HexDigit(v: nat): char
    requires v < 16
  {
    if v < 10 then Digit(v) else ('a' as int + v - 10) as char
  }

  function HexValue(c: char): Option<nat> {
    if '0' <= c <= '9' then Some(c as int - '0' as int)
    else if 'a' <= c <= 'f' then Some(c as int - 'a' as int + 10)
    else if 'A' <= c <= 'F' then Some(c as int - 'A' as int + 10)
    else None
  }

  /** `sub in s`. */
  predicate Contains(s: string, sub: string) {
    sub <= s || (s != "" && Contains(s[1..], sub))
  }

  lemma {:induction false} ContainsIff(s: string, sub: string)
    ensures Contains(s, sub) <==> exists i :: 0 <= i <= |s| - |sub| && s[i..][..|sub|] == sub
  {
    if sub <= s {
      assert s[0..][..|sub|] == sub;
    } else if s == "" {
      assert sub != "";
    } else {
      ContainsIff(s[1..], sub);
      forall i | 0 <= i <= |s| - |sub| && s[i..][..|sub|] == sub
        ensures Contains(s, sub)
      {
        if i > 0 {
          assert s[i..] == s[1..][i - 1..];
        }
      }
      if Contains(s[1..], sub) {
        var i :| 0 <= i <= |s[1..]| - |sub| && s[1..][i..][..|sub|] == sub;
        assert s[i + 1..] == s[1..][i..];
        assert 0 <= i + 1 <= |s| - |sub| && s[i + 1..][..|sub|] == sub;
      }
    }
  }

  /** No character of the text is of the given kind. */
  predicate Lacks(s: string, kind: char -> bool) {
    forall i :: 0 <= i < |s| ==> !kind(s[i])
  }

  predicate IsAscii(s: string) {
    forall i :: 0 <= i < |s| ==> s[i] as int < 128
  }

  /** The blanks of bytes and of `int`. */
  predicate IsSpace(c: char) {
    c == ' ' || '\t' <= c <= '\r'
  }

  /** The blanks of text, as `str.isspace` knows them. */
  predicate IsBlank(c: char) {
    var n := c as int;
    || 0x09 <= n <= 0x0D || 0x1C <= n <= 0x20 || n == 0x85 || n == 0xA0 || n == 0x1680
    || 0x2000 <= n <= 0x200A || n == 0x2028 || n == 0x2029 || n == 0x202F || n == 0x205F || n == 0x3000
  }

  function LStrip(s: string, blank: char -> bool): string {
    if s != "" && blank(s[0]) then LStrip(s[1..], blank) else s
  }

  /** `s.strip()` for the given kind of blank. */
  function Strip(s: string, blank: char -> bool): string {
    RStripAll(LStrip(s, blank), blank)
  }

  function RStripAll(s: string, blank: char -> bool): string {
    if s != "" && blank(s[|s| - 1]) then RStripAll(s[..|s| - 1], blank) else s
  }

  lemma {:induction false} LStripIs(s: string, blank: char -> bool)
    ensures var n := |s| - |LStrip(s, blank)|;
            && 0 <= n <= |s| && LStrip(s, blank) == s[n..] && (forall i :: 0 <= i < n ==> blank(s[i]))
            && (n < |s| ==> !blank(s[n]))
  {
    if s != "" && blank(s[0]) {
      LStripIs(s[1..], blank);
    }
  }

  lemma {:induction false} RStripIs(s: string, blank: char -> bool)
    ensures var m := |RStripAll(s, blank)|;
            && m <= |s| && RStripAll(s, blank) == s[..m] && (forall i :: m <= i < |s| ==> blank(s[i]))
            && (m > 0 ==> !blank(s[m - 1]))
  {
    if s != "" && blank(s[|s| - 1]) {
      RStripIs(s[..|s| - 1], blank);
    }
  }

  /** Stripping takes the blanks around and nothing else: `i` and `j` bound what is left. */
  lemma StripIs(s: string, blank: char -> bool) returns (i: nat, j: nat)
    ensures i <= j <= |s| && Strip(s, blank) == s[i..j]
    ensures (forall k :: 0 <= k < i ==> blank(s[k])) && (forall k :: j <= k < |s| ==> blank(s[k]))
    ensures i < j ==> !blank(s[i]) && !blank(s[j - 1])
  {
    LStripIs(s, blank);
    i := |s| - |LStrip(s, blank)|;
    var tail := s[i..];
    RStripIs(tail, blank);
    j := i + |RStripAll(tail, blank)|;
    hide LStrip, RStripAll;
    forall k | j <= k < |s|
      ensures blank(s[k])
    {
      assert tail[k - i] == s[k];
    }
    assert i < j ==> s[j - 1] == tail[j - 1 - i];
    if i < j {
      assert s[i] == tail[0];
    }
  }

  /** `b.hex()`. */
  function Hex(b: Bytes): string {
    if b == [] then "" else [HexDigit(b[0] / 16), HexDigit(b[0] % 16)] + Hex(b[1..])
  }

  /** `bytes.fromhex(s)`: whitespace is skipped between bytes, None where it raises ValueError. */
  function FromHex(s: string): Option<Bytes> {
    if s == "" then Some([])
    else if IsSpace(s[0]) then FromHex(s[1..])
    else if |s| < 2 || HexValue(s[0]).None? || HexValue(s[1]).None? then None
    else
      match FromHex(s[2..])
      case None => None
      case Some(rest) =>
        var hi, lo := HexValue(s[0]).value, HexValue(s[1]).value;
        Some([hi * 16 + lo] + rest)
  }

  lemma HexDigitRoundTrip(v: nat)
    requires v < 16
    ensures HexValue(HexDigit(v)) == Some(v)
    ensures !IsSpace(HexDigit(v)) && HexDigit(v) != '|' && HexDigit(v) != '.'
  {
  }

  lemma FromHexPair(v: Byte, s: string)
    ensures var t := [HexDigit(v / 16), HexDigit(v % 16)] + s;
            FromHex(t) == match FromHex(s) case None => None case Some(rest) => Some([v] + rest)
  {
    HexDigitRoundTrip(v / 16);
    HexDigitRoundTrip(v % 16);
    hide HexDigit, HexValue, IsSpace;
    var t := [HexDigit(v / 16), HexDigit(v % 16)] + s;
    assert t[2..] == s;
  }

  lemma {:induction false} HexRoundTrip(b: Bytes)
    ensures FromHex(Hex(b)) == Some(b)
    ensures '|' !in Hex(b)
  {
    hide FromHex, HexDigit;
    if b == [] {
      FromHexEmpty();
    } else {
      HexRoundTrip(b[1..]);
      HexDigitRoundTrip(b[0] / 16);
      HexDigitRoundTrip(b[0] % 16);
      FromHexPair(b[0], Hex(b[1..]));
      assert [b[0]] + b[1..] == b;
    }
  }

  lemma FromHexEmpty()
    ensures FromHex("") == Some([])
  {
  }

  /** Hexadecimal text piece by piece: two digits for a byte, or a blank. */
  datatype Piece = Pair(hi: char, lo: char) | Gap(c: char)

  predicate IsPiece(p: Piece) {
    match p
    case Pair(hi, lo) => HexValue(hi).Some? && HexValue(lo).Some?
    case Gap(c) => IsSpace(c)
  }

  ghost predicate ArePieces(ps: seq<Piece>) {
    forall i :: 0 <= i < |ps| ==> IsPiece(ps[i])
  }

  function PiecesText(ps: seq<Piece>): string {
    if ps == [] then ""
    else (match ps[0] case Pair(hi, lo) => [hi, lo] case Gap(c) => [c]) + PiecesText(ps[1..])
  }

  /** The numbers its pairs spell. */
  function PiecesBytes(ps: seq<Piece>): seq<nat> {
    if ps == [] then []
    else (match ps[0]
          case Pair(hi, lo) => [HexValue(hi).GetOr(0) * 16 + HexValue(lo).GetOr(0)]
          case Gap(_) => []) + PiecesBytes(ps[1..])
  }

  ghost predicate Spells(s: string, b: seq<nat>) {
    exists ps :: ArePieces(ps) && PiecesText(ps) == s && PiecesBytes(ps) == b
  }

  /** A digit's value is its place among the sixteen, in either case. */
  lemma HexValueIff(c: char, v: nat)
    ensures HexValue(c) == Some(v) <==> v < 16 && (c == "0123456789abcdef"[v] || c == "0123456789ABCDEF"[v])
  {
    var lower, upper := "0123456789abcdef", "0123456789ABCDEF";
    if HexValue(c).Some? {
      assert lower[HexValue(c).value] == c || upper[HexValue(c).value] == c;
    }
  }

  lemma NoHexBlank(c: char)
    ensures HexValue(c).Some? ==> !IsSpace(c) && HexValue(c).value < 16
  {
  }

  lemma {:induction false} PiecesRead(ps: seq<Piece>)
    requires ArePieces(ps)
    ensures FromHex(PiecesText(ps)) == Some(PiecesBytes(ps))
  {
    if ps != [] {
      PiecesRead(ps[1..]);
      assert IsPiece(ps[0]);
      var s, rest := PiecesText(ps), PiecesText(ps[1..]);
      match ps[0] {
        case Pair(hi, lo) =>
          NoHexBlank(hi);
          hide HexValue, IsSpace;
          assert s[2..] == rest;
        case Gap(c) =>
          hide HexValue, IsSpace;
          assert s[1..] == rest;
          assert FromHex(s) == FromHex(rest);
          assert PiecesBytes(ps) == PiecesBytes(ps[1..]);
      }
    }
  }

  lemma OnePieceMore(p: Piece, rest: seq<Piece>)
    requires IsPiece(p) && ArePieces(rest)
    ensures ArePieces([p] + rest)
    ensures PiecesText([p] + rest) == (match p case Pair(hi, lo) => [hi, lo] case Gap(c) => [c]) + PiecesText(rest)
    ensures PiecesBytes([p] + rest) ==
            (match p
             case Pair(hi, lo) => [HexValue(hi).GetOr(0) * 16 + HexValue(lo).GetOr(0)]
             case Gap(_) => []) + PiecesBytes(rest)
  {
    hide HexValue, IsSpace;
    assert ([p] + rest)[1..] == rest;
  }

  lemma FromHexHead(s: string)
    requires s != "" && FromHex(s).Some?
    ensures IsSpace(s[0]) ==> FromHex(s) == FromHex(s[1..])
    ensures !IsSpace(s[0]) ==>
              && |s| >= 2 && HexValue(s[0]).Some? && HexValue(s[1]).Some? && FromHex(s[2..]).Some?
              && FromHex(s).value == [HexValue(s[0]).value * 16 + HexValue(s[1]).value] + FromHex(s[2..]).value
  {
    hide HexValue, IsSpace;
  }

  lemma {:induction false} ReadPieces(s: string) returns (ps: seq<Piece>)
    requires FromHex(s).Some?
    ensures ArePieces(ps) && PiecesText(ps) == s && PiecesBytes(ps) == FromHex(s).value
    decreases |s|
  {
    hide HexValue, IsSpace, PiecesText, PiecesBytes, ArePieces;
    if s == "" {
      ps := [];
      NoPieces();
    } else {
      FromHexHead(s);
      hide FromHex;
      if IsSpace(s[0]) {
        var rest := ReadPieces(s[1..]);
        OnePieceMore(Gap(s[0]), rest);
        ps := [Gap(s[0])] + rest;
        assert s == [s[0]] + s[1..];
      } else {
        var rest := ReadPieces(s[2..]);
        OnePieceMore(Pair(s[0], s[1]), rest);
        ps := [Pair(s[0], s[1])] + rest;
        assert s == [s[0], s[1]] + s[2..];
      }
    }
  }

  lemma NoPieces()
    ensures ArePieces([]) && PiecesText([]) == "" && PiecesBytes([]) == []
  {
  }

  /** Exactly the texts made of pairs of digits, in either case, and blanks between pairs are read, and as
      the bytes their pairs spell. */
  lemma FromHexIff(s: string, b: Bytes)
    ensures FromHex(s) == Some(b) <==> Spells(s, b)
  {
    hide FromHex;
    if FromHex(s) == Some(b) {
      var ps := ReadPieces(s);
    }
    if Spells(s, b) {
      var ps :| ArePieces(ps) && PiecesText(ps) == s && PiecesBytes(ps) == b;
      PiecesRead(ps);
    }
  }
}
