/** Time-based one-time passwords: dynamic truncation and single use per time step
    (section 5.3 of RFC 4226, section 5.2 of RFC 6238). */
module Totp {
  import opened Text

  type Digest = d: seq<bv8> | |d| == 20 witness seq(20, _ => 0)

  /** HMAC-SHA1 of the eight-byte step under the secret. */
  type Mac = nat -> Digest

  const STEP_LIMIT: nat := 0x1_0000_0000_0000_0000

  /** A byte as a number. */
  function Octet(b: bv8): nat {
    b as nat
  }

  function Offset(d: Digest): nat {
    (d[19] & 0x0F) as nat
  }

  lemma LowNibble(b: bv8)
    ensures (b & 0x0F) as nat <= 15
  {
    assert b & 0x0F <= 15;
  }

  /** The big-endian word of four bytes, as `struct.unpack(">I", ..)` reads it. */
  function Word(a: bv8, b: bv8, c: bv8, d: bv8): bv32 {
    ((a as bv32) << 24) | ((b as bv32) << 16) | ((c as bv32) << 8) | (d as bv32)
  }

  /** The number the word is without its sign bit. */
  function Positive(a: bv8, b: bv8, c: bv8, d: bv8): nat {
    (Word(a, b, c, d) & 0x7FFF_FFFF) as nat
  }

  /** The word at the digest's own offset; the four bytes are always inside the digest. */
  function Truncated(d: Digest): nat {
    LowNibble(d[19]);
    var o := Offset(d);
    Positive(d[o], d[o + 1], d[o + 2], d[o + 3])
  }

  function ZeroPad(s: string, width: nat): string
    decreases width - |s|
  {
    if |s| >= width then s else ZeroPad("0" + s, width)
  }

  /** `_totp`, for a step that fits eight bytes. */
  function Code(mac: Mac, step: nat): string {
    ZeroPad(Decimal(Truncated(mac(step)) % 1000000), 6)
  }

  lemma LowFour(b: bv8)
    ensures (b & 0x0F) as nat == b as nat % 16
  {
    assert b & 0x0F == b % 16;
  }

  lemma LowSeven(b: bv8)
    ensures (b & 0x7F) as nat == b as nat % 128
  {
    assert b & 0x7F == b % 128;
  }

  function Low(b: bv8): nat {
    (b & 0x7F) as nat
  }

  lemma LowIs(b: bv8)
    ensures Low(b) == Octet(b) % 128
  {
    LowSeven(b);
  }

  /** Masking the assembled word masks its first byte, and leaves the others where they are. */
  lemma MaskedBytes(a: bv8, b: bv8, c: bv8, d: bv8)
    ensures ((((a as bv32) << 24) | ((b as bv32) << 16) | ((c as bv32) << 8) | (d as bv32)) & 0x7FFF_FFFF) as nat ==
            (a & 0x7F) as nat * 0x100_0000 + b as nat * 0x1_0000 + c as nat * 0x100 + d as nat
  {
  }

  lemma PositiveIs(a: bv8, b: bv8, c: bv8, d: bv8)
    ensures Positive(a, b, c, d) == Low(a) * 0x100_0000 + Octet(b) * 0x1_0000 + Octet(c) * 0x100 + Octet(d)
  {
    MaskedBytes(a, b, c, d);
  }

  /** The masked word in numbers. */
  lemma WordIs(a: bv8, b: bv8, c: bv8, d: bv8)
    ensures Positive(a, b, c, d) == ((Octet(a) % 128 * 256 + Octet(b)) * 256 + Octet(c)) * 256 + Octet(d)
  {
    hide *;
    PositiveIs(a, b, c, d);
    LowIs(a);
  }

  lemma OffsetIs(d: Digest)
    ensures Offset(d) == Octet(d[19]) % 16
  {
    LowFour(d[19]);
  }

  lemma TruncatedAt(d: Digest)
    ensures var o := Octet(d[19]) % 16;
            Truncated(d) == Positive(d[o], d[o + 1], d[o + 2], d[o + 3])
  {
    OffsetIs(d);
    hide Offset, Positive, Octet;
  }

  /** Dynamic truncation in numbers (section 5.3 of RFC 4226): the last byte modulo 16 says where the four
      bytes stand, and the first of them counts modulo 128. */
  lemma TruncatedIsDynamicTruncation(d: Digest)
    ensures var o := Octet(d[19]) % 16;
            Truncated(d) ==
            ((Octet(d[o]) % 128 * 256 + Octet(d[o + 1])) * 256 + Octet(d[o + 2])) * 256 + Octet(d[o + 3])
  {
    hide *;
    var o := Octet(d[19]) % 16;
    TruncatedAt(d);
    WordIs(d[o], d[o + 1], d[o + 2], d[o + 3]);
  }

  lemma {:induction false} ZeroPadValue(s: string, width: nat)
    requires AllDigits(s) && |s| <= width
    ensures AllDigits(ZeroPad(s, width)) && |ZeroPad(s, width)| == width
    ensures NatValue(ZeroPad(s, width)) == NatValue(s)
    decreases width - |s|
  {
    if |s| < width {
      LeadingZero(s);
      ZeroPadValue("0" + s, width);
    }
  }

  lemma {:induction false} LeadingZero(s: string)
    requires AllDigits(s)
    ensures AllDigits("0" + s) && NatValue("0" + s) == NatValue(s)
  {
    var t := "0" + s;
    if s == "" {
      assert t[..|t| - 1] == "";
    } else {
      LeadingZero(s[..|s| - 1]);
      assert t[..|t| - 1] == "0" + s[..|s| - 1];
    }
  }

  /** A printed number below ten to the power of `width` has at most `width` digits. */
  function Pow10(n: nat): nat {
    if n == 0 then 1 else 10 * Pow10(n - 1)
  }

  lemma {:induction false} DecimalLength(n: nat, width: nat)
    requires width > 0 && n < Pow10(width)
    ensures |Decimal(n)| <= width
    decreases width
  {
    if n >= 10 {
      assert width > 1;
      DecimalLength(n / 10, width - 1);
    }
  }

  /** The code is always six digits, and reads as the truncated word modulo one million. */
  lemma CodeIsSixDigits(mac: Mac, step: nat)
    ensures var code := Code(mac, step);
            |code| == 6 && AllDigits(code) && NatValue(code) == Truncated(mac(step)) % 1000000
  {
    var v := Truncated(mac(step)) % 1000000;
    assert Pow10(6) == 1000000;
    hide Truncated;
    DecimalRoundTrip(v);
    DecimalLength(v, 6);
    ZeroPadValue(Decimal(v), 6);
  }

  // ---------------------------------------------------------------- the verifier over a run

  /** A step that does not fit eight unsigned bytes, or a code that is not ASCII, raises. */
  datatype Verdict = Accepted | Rejected | Raised

  /** Python's floor division by the period; Dafny's agrees for a positive divisor. */
  function Step(now: int): int {
    now / 30
  }

  function Check(mac: Mac, used: set<int>, code: string, now: int): Verdict {
    var step := Step(now);
    if step in used then Rejected
    else if step < 0 || step >= STEP_LIMIT then Raised
    else if !IsAscii(code) then Raised
    else if Code(mac, step) == code then Accepted
    else Rejected
  }

  class TotpVerifier {
    const mac: Mac
    var used: set<int>

    constructor (mac: Mac)
      ensures this.mac == mac && used == {}
    {
      this.mac := mac;
      used := {};
    }

    method Verify(code: string, now: int) returns (v: Verdict)
      modifies this
      ensures v == Check(mac, old(used), code, now)
      ensures used == if v.Accepted? then old(used) + {Step(now)} else old(used)
    {
      var step := now / 30;
      if step in used {
        return Rejected;
      }
      if step < 0 || step >= STEP_LIMIT || !IsAscii(code) {
        return Raised;
      }
      if Code(mac, step) == code {
        used := used + {step};
        return Accepted;
      }
      v := Rejected;
    }
  }

  datatype Attempt = Attempt(code: string, now: int)

  /** The used steps before attempt `i` of a run. */
  function UsedBefore(mac: Mac, run: seq<Attempt>, i: nat): set<int>
    requires i <= |run|
  {
    if i == 0 then {}
    else
      var used := UsedBefore(mac, run, i - 1);
      if Check(mac, used, run[i - 1].code, run[i - 1].now).Accepted? then used + {Step(run[i - 1].now)} else used
  }

  function VerdictAt(mac: Mac, run: seq<Attempt>, i: nat): Verdict
    requires i < |run|
  {
    Check(mac, UsedBefore(mac, run, i), run[i].code, run[i].now)
  }

  lemma {:induction false} UsedBeforeIs(mac: Mac, run: seq<Attempt>, i: nat, step: int)
    requires i <= |run|
    ensures step in UsedBefore(mac, run, i) <==>
            exists j :: 0 <= j < i && VerdictAt(mac, run, j).Accepted? && Step(run[j].now) == step
  {
    if i > 0 {
      UsedBeforeIs(mac, run, i - 1, step);
      hide Check;
      assert VerdictAt(mac, run, i - 1).Accepted? <==>
             Check(mac, UsedBefore(mac, run, i - 1), run[i - 1].code, run[i - 1].now).Accepted?;
    }
  }

  /** The step is one of eight unsigned bytes. */
  predicate Fits(step: int) {
    0 <= step <= 18_446_744_073_709_551_615
  }

  /** Some earlier attempt of the same step was accepted. */
  predicate Spent(mac: Mac, run: seq<Attempt>, i: nat)
    requires i < |run|
  {
    exists j :: 0 <= j < i && VerdictAt(mac, run, j).Accepted? && Step(run[j].now) == Step(run[i].now)
  }

  /** In every run an attempt is accepted exactly when its step is not spent, fits eight bytes, and the code
      is that step's; it raises exactly when the step is not spent and does not fit, or the code is not ASCII. */
  lemma AcceptedIff(mac: Mac, run: seq<Attempt>, i: nat)
    requires i < |run|
    ensures var step := Step(run[i].now);
            && (VerdictAt(mac, run, i).Accepted? <==>
                !Spent(mac, run, i) && Fits(step) && run[i].code == Code(mac, step))
            && (VerdictAt(mac, run, i).Raised? <==>
                !Spent(mac, run, i) &&
                (!Fits(step) || exists k :: 0 <= k < |run[i].code| && run[i].code[k] as int >= 128))
  {
    var step := Step(run[i].now);
    UsedBeforeIs(mac, run, i, step);
    if Fits(step) {
      CodeIsSixDigits(mac, step);
      hide Code, UsedBefore;
      if run[i].code == Code(mac, step) {
        assert forall k :: 0 <= k < |run[i].code| ==> IsDigit(run[i].code[k]);
        assert IsAscii(run[i].code);
      }
    } else {
      hide Code, UsedBefore;
    }
  }

  /** Positions of the accepted attempts whose clock read between `a` and `b`. */
  function AcceptedIn(mac: Mac, run: seq<Attempt>, n: nat, a: int, b: int): set<nat>
    requires n <= |run|
  {
    set i: nat | i < n && VerdictAt(mac, run, i).Accepted? && a <= run[i].now <= b
  }

  lemma AcceptedIsFresh(mac: Mac, run: seq<Attempt>, n: nat)
    requires n < |run|
    ensures VerdictAt(mac, run, n).Accepted? ==> Step(run[n].now) !in UsedBefore(mac, run, n)
    ensures UsedBefore(mac, run, n + 1) == UsedBefore(mac, run, n)
            + if VerdictAt(mac, run, n).Accepted? then {Step(run[n].now)} else {}
  {
    hide Code, IsAscii;
  }

  lemma AcceptedInStep(mac: Mac, run: seq<Attempt>, n: nat, a: int, b: int)
    requires n < |run|
    ensures |AcceptedIn(mac, run, n + 1, a, b)| == |AcceptedIn(mac, run, n, a, b)|
            + if VerdictAt(mac, run, n).Accepted? && a <= run[n].now <= b then 1 else 0
  {
    hide VerdictAt;
    var before := AcceptedIn(mac, run, n, a, b);
    assert n !in before;
    assert AcceptedIn(mac, run, n + 1, a, b) ==
           before + if VerdictAt(mac, run, n).Accepted? && a <= run[n].now <= b then {n} else {};
  }

  lemma {:induction false} AcceptedSteps(mac: Mac, run: seq<Attempt>, n: nat, a: int, b: int) returns (steps: set<int>)
    requires n <= |run|
    ensures |AcceptedIn(mac, run, n, a, b)| == |steps|
    ensures forall s :: s in steps ==> Step(a) <= s <= Step(b)
    ensures steps <= UsedBefore(mac, run, n)
  {
    hide AcceptedIn, VerdictAt, UsedBefore, Step;
    if n == 0 {
      steps := {};
      AcceptedInNone(mac, run, a, b);
    } else {
      steps := AcceptedSteps(mac, run, n - 1, a, b);
      AcceptedIsFresh(mac, run, n - 1);
      AcceptedInStep(mac, run, n - 1, a, b);
      var now := run[n - 1].now;
      if VerdictAt(mac, run, n - 1).Accepted? && a <= now <= b {
        StepMonotone(a, now);
        StepMonotone(now, b);
        assert Step(now) !in steps;
        steps := steps + {Step(now)};
      }
    }
  }

  lemma AcceptedInNone(mac: Mac, run: seq<Attempt>, a: int, b: int)
    ensures AcceptedIn(mac, run, 0, a, b) == {}
  {
  }

  lemma StepMonotone(a: int, b: int)
    requires a <= b
    ensures Step(a) <= Step(b)
  {
  }

  lemma {:induction false} IntervalSize(steps: set<int>, lo: int, hi: int)
    requires forall s :: s in steps ==> lo <= s <= hi
    ensures |steps| <= if lo <= hi then hi - lo + 1 else 0
    decreases hi - lo
  {
    if lo > hi {
      assert forall s :: s !in steps;
      assert steps == {};
    } else {
      IntervalSize(steps - {hi}, lo, hi - 1);
    }
  }

  /** However many codes are tried, those accepted while the clock reads between `a` and `b` number
      at most one per time step of that span. */
  lemma OnePerStep(mac: Mac, run: seq<Attempt>, a: int, b: int)
    requires a <= b
    ensures |AcceptedIn(mac, run, |run|, a, b)| <= b / 30 - a / 30 + 1
  {
    var steps := AcceptedSteps(mac, run, |run|, a, b);
    IntervalSize(steps, Step(a), Step(b));
  }
}
