/** The authorization-code ledger with its PKCE binding (sections 4.2 and 4.6 of RFC 7636). */
module Pkce {
  import opened Text
  import opened Base64Url

  /** SHA-256 of a text's encoding. */
  type Hash = string -> Bytes

  ghost predicate DigestsOf32(hash: Hash) {
    forall v :: |hash(v)| == 32
  }

  /** `_s256`. */
  function S256(hash: Hash, verifier: string): string {
    B64u(hash(verifier))
  }

  /** Every challenge is 43 base64url characters, and two verifiers share one only if they share a digest. */
  lemma ChallengeShape(hash: Hash, v: string, w: string)
    requires DigestsOf32(hash)
    ensures |S256(hash, v)| == 43 && AllInAlphabet(S256(hash, v))
    ensures S256(hash, v) == S256(hash, w) <==> hash(v) == hash(w)
  {
    PaddingRestored(hash(v));
    if S256(hash, v) == S256(hash, w) {
      Injective(hash(v), hash(w));
    }
  }

  /** A token, or the error raised; comparing with a challenge that is not ASCII is a TypeError. */
  datatype Outcome = Token | UnknownCode | Mismatch | NotAscii

  type Table = map<string, string>

  function Exchange(hash: Hash, codes: Table, code: string, verifier: string): Outcome {
    if code !in codes then UnknownCode
    else if !IsAscii(codes[code]) then NotAscii
    else if S256(hash, verifier) != codes[code] then Mismatch
    else Token
  }

  class PkceAuthServer {
    const hash: Hash
    var codes: Table

    constructor (hash: Hash)
      ensures this.hash == hash && codes == map[]
    {
      this.hash := hash;
      codes := map[];
    }

    method Authorize(code: string, challenge: string)
      modifies this
      ensures codes == old(codes)[code := challenge]
    {
      codes := codes[code := challenge];
    }

    method ExchangeCode(code: string, verifier: string) returns (r: Outcome)
      modifies this
      ensures r == Exchange(hash, old(codes), code, verifier)
      ensures codes == if r.Token? then old(codes) - {code} else old(codes)
    {
      if code !in codes {
        return UnknownCode;
      }
      var challenge := codes[code];
      if !IsAscii(challenge) {
        return NotAscii;
      }
      if S256(hash, verifier) != challenge {
        return Mismatch;
      }
      codes := codes - {code};
      r := Token;
    }
  }

  // ---------------------------------------------------------------- whole runs

  datatype Event = Authorize(code: string, challenge: string) | Redeem(code: string, verifier: string)

  /** The table before event `i` of a run. */
  function TableAt(hash: Hash, run: seq<Event>, i: nat): Table
    requires i <= |run|
  {
    if i == 0 then map[]
    else
      var codes := TableAt(hash, run, i - 1);
      match run[i - 1]
      case Authorize(code, challenge) => codes[code := challenge]
      case Redeem(code, verifier) => if Exchange(hash, codes, code, verifier).Token? then codes - {code} else codes
  }

  predicate Redeemed(hash: Hash, run: seq<Event>, i: nat, code: string)
    requires i < |run|
  {
    run[i].Redeem? && run[i].code == code && Exchange(hash, TableAt(hash, run, i), code, run[i].verifier).Token?
  }

  predicate Authorized(run: seq<Event>, i: nat, code: string)
    requires i < |run|
  {
    run[i].Authorize? && run[i].code == code
  }

  predicate Overwrote(hash: Hash, run: seq<Event>, i: nat, code: string)
    requires i < |run|
  {
    Authorized(run, i, code) && code in TableAt(hash, run, i)
  }

  function Authorizations(run: seq<Event>, n: nat, code: string): nat
    requires n <= |run|
  {
    if n == 0 then 0 else Authorizations(run, n - 1, code) + if Authorized(run, n - 1, code) then 1 else 0
  }

  function Redemptions(hash: Hash, run: seq<Event>, n: nat, code: string): nat
    requires n <= |run|
  {
    if n == 0 then 0
    else Redemptions(hash, run, n - 1, code) + if Redeemed(hash, run, n - 1, code) then 1 else 0
  }

  function Overwrites(hash: Hash, run: seq<Event>, n: nat, code: string): nat
    requires n <= |run|
  {
    if n == 0 then 0
    else Overwrites(hash, run, n - 1, code) + if Overwrote(hash, run, n - 1, code) then 1 else 0
  }

  /** Every authorization of a code is redeemed once, overwritten once, or still live; at most one is live. */
  lemma {:induction false} Ledger(hash: Hash, run: seq<Event>, n: nat, code: string)
    requires n <= |run|
    ensures Authorizations(run, n, code) ==
            Redemptions(hash, run, n, code) + Overwrites(hash, run, n, code)
            + if code in TableAt(hash, run, n) then 1 else 0
  {
    if n > 0 {
      Ledger(hash, run, n - 1, code);
      hide S256, IsAscii;
    }
  }

  /** Event `j` is the latest authorization of the code before `i` and is not yet redeemed. */
  predicate LiveFrom(hash: Hash, run: seq<Event>, j: nat, i: nat, code: string)
    requires i <= |run|
  {
    && j < i && Authorized(run, j, code)
    && forall k :: j < k < i ==> !Authorized(run, k, code) && !Redeemed(hash, run, k, code)
  }

  /** The table holds, for each code, the challenge of its latest unredeemed authorization. */
  lemma {:induction false} TableIsLatest(hash: Hash, run: seq<Event>, i: nat, code: string)
    requires i <= |run|
    ensures code in TableAt(hash, run, i) <==> exists j: nat :: LiveFrom(hash, run, j, i, code)
    ensures forall j: nat :: LiveFrom(hash, run, j, i, code) ==>
              code in TableAt(hash, run, i) && TableAt(hash, run, i)[code] == run[j].challenge
  {
    if i > 0 {
      TableIsLatest(hash, run, i - 1, code);
      LiveStep(hash, run, i - 1, i, code);
      hide Exchange, LiveFrom;
    }
  }

  lemma LiveStep(hash: Hash, run: seq<Event>, i: nat, n: nat, code: string)
    requires i < |run| && n == i + 1
    ensures forall j: nat :: LiveFrom(hash, run, j, n, code) <==>
              if Authorized(run, i, code) then j == i
              else !Redeemed(hash, run, i, code) && LiveFrom(hash, run, j, i, code)
  {
    hide Authorized, Redeemed;
  }

  /** Every answer, for every code and verifier: unknown without an unredeemed authorization; by the challenge of
      the latest one otherwise, raising where that is not ASCII and redeeming where it is the verifier's S256. */
  lemma OutcomeIff(hash: Hash, run: seq<Event>, i: nat, code: string, verifier: string)
    requires i <= |run|
    ensures var r := Exchange(hash, TableAt(hash, run, i), code, verifier);
            && (r.UnknownCode? <==> forall j: nat :: !LiveFrom(hash, run, j, i, code))
            && forall j: nat :: LiveFrom(hash, run, j, i, code) ==>
                 var challenge := run[j].challenge;
                 var ascii := forall k :: 0 <= k < |challenge| ==> challenge[k] as int < 128;
                 && (r.NotAscii? <==> !ascii)
                 && (r.Token? <==> ascii && challenge == S256(hash, verifier))
                 && (r.Mismatch? <==> ascii && challenge != S256(hash, verifier))
  {
    TableIsLatest(hash, run, i, code);
    hide TableAt, LiveFrom, S256;
  }

  /** A code is redeemed exactly by a verifier whose S256 is the ASCII challenge of its latest
      authorization, and only while that authorization is unredeemed. */
  lemma RedeemedIff(hash: Hash, run: seq<Event>, i: nat)
    requires i < |run| && run[i].Redeem?
    ensures Redeemed(hash, run, i, run[i].code) <==>
            exists j: nat :: LiveFrom(hash, run, j, i, run[i].code) && IsAscii(run[j].challenge)
                        && run[j].challenge == S256(hash, run[i].verifier)
  {
    TableIsLatest(hash, run, i, run[i].code);
    hide TableAt, LiveFrom, S256, IsAscii;
  }

  /** Between two redemptions of one code there is an authorization of it. */
  lemma NoDoubleRedemption(hash: Hash, run: seq<Event>, i: nat, k: nat, code: string)
    requires i < k < |run| && Redeemed(hash, run, i, code) && Redeemed(hash, run, k, code)
    ensures exists j :: i < j < k && Authorized(run, j, code)
  {
    RedeemedIff(hash, run, k);
    var j: nat :| LiveFrom(hash, run, j, k, code);
    assert j != i;
    hide Redeemed;
  }
}
