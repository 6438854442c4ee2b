/** Compact tokens built by hand, and the header-trusting verifier that reads them back
    (section 7.1 of RFC 7515). JSON and HMAC stay abstract. */
module CompactToken {
  import opened Text
  import opened Base64Url

  type Object = map<string, string>

  /** `json.dumps(..).encode()` and `json.loads`. */
  datatype Json = Json(dumps: Object -> Bytes, loads: Bytes -> Option<Object>)

  ghost predicate Lawful(json: Json) {
    forall o :: json.loads(json.dumps(o)) == Some(o)
  }

  /** HMAC-SHA256 of a text's encoding under a key. */
  type Hmac = (Bytes, string) -> Bytes

  /** A verifier returns the claims or raises. */
  datatype Outcome = Claims(claims: Object) | Raised

  const HS256_HEADER: Object := map["alg" := "HS256", "typ" := "JWT"]
  const NONE_HEADER: Object := map["alg" := "none", "typ" := "JWT"]

  function Segment(json: Json, o: Object): string {
    B64u(json.dumps(o))
  }

  function SigningInput(json: Json, header: Object, claims: Object): string {
    Segment(json, header) + ['.'] + Segment(json, claims)
  }

  /** A token with any header, claims and signature bytes. */
  function Token(json: Json, header: Object, claims: Object, sig: Bytes): string {
    SigningInput(json, header, claims) + ['.'] + B64u(sig)
  }

  function ForgeAlgNone(json: Json, claims: Object): string {
    Segment(json, NONE_HEADER) + "." + Segment(json, claims) + "."
  }

  function ForgeHs256(json: Json, hmac: Hmac, key: Bytes, claims: Object): string {
    var input := SigningInput(json, HS256_HEADER, claims);
    input + "." + B64u(hmac(key, input))
  }

  function ReadSegment(json: Json, seg: string): Option<Object> {
    match B64uDecode(seg)
    case None => None
    case Some(raw) => json.loads(raw)
  }

  /** The header of a token of three segments. */
  function UnverifiedHeader(json: Json, token: string): Option<Object> {
    var parts := Split(token, '.');
    if |parts| < 3 then None else ReadSegment(json, parts[0])
  }

  function UnverifiedClaims(json: Json, token: string): Outcome {
    var parts := Split(token, '.');
    if |parts| < 2 then Raised
    else match ReadSegment(json, parts[1])
      case None => Raised
      case Some(o) => Claims(o)
  }

  function Alg(header: Object): string {
    if "alg" in header then header["alg"] else ""
  }

  /** Pins RS256; `rsa` is the library's signature and claims check. */
  function StrictVerify(json: Json, rsa: string -> Outcome, token: string): Outcome {
    match UnverifiedHeader(json, token)
    case None => Raised
    case Some(h) => if Alg(h) == "RS256" then rsa(token) else Raised
  }

  /** Dispatches on the token's own algorithm. */
  function ConfusedVerify(json: Json, hmac: Hmac, publicPem: Bytes, rsa: string -> Outcome, token: string): Outcome {
    match UnverifiedHeader(json, token)
    case None => Raised
    case Some(h) =>
      if Alg(h) == "none" then UnverifiedClaims(json, token)
      else if Alg(h) == "HS256" then
        match RSplit(token, '.')
        case None => Raised
        case Some((input, sig)) =>
          if B64u(hmac(publicPem, input)) != sig then Raised else UnverifiedClaims(json, token)
      else StrictVerify(json, rsa, token)
  }

  // ---------------------------------------------------------------- segments are recovered

  lemma {:induction false} TokenParts(h: string, c: string, s: string)
    requires '.' !in h && '.' !in c && '.' !in s
    ensures Split(h + ['.'] + c + ['.'] + s, '.') == [h, c, s]
    ensures RSplit(h + ['.'] + c + ['.'] + s, '.') == Some((h + ['.'] + c, s))
  {
    hide Split, RSplit;
    SplitConcat(h + ['.'] + c, '.', s);
    SplitConcat(h, '.', c);
    SplitSingle(h);
    SplitSingle(c);
    SplitSingle(s);
    RSplitUnique(h + ['.'] + c, '.', s);
  }

  lemma SplitSingle(s: string)
    requires '.' !in s
    ensures Split(s, '.') == [s]
  {
    SplitParts(s, '.');
  }

  lemma ReadsBack(json: Json, o: Object)
    requires Lawful(json)
    ensures ReadSegment(json, Segment(json, o)) == Some(o) && '.' !in Segment(json, o)
  {
    hide B64u, B64uDecode;
    RoundTrip(json.dumps(o));
    PaddingRestored(json.dumps(o));
  }

  /** No segment holds a dot, so header and claims of any hand-built token are read back. */
  lemma TokenReadsBack(json: Json, header: Object, claims: Object, sig: Bytes)
    requires Lawful(json)
    ensures var token := Token(json, header, claims, sig);
            && UnverifiedHeader(json, token) == Some(header)
            && UnverifiedClaims(json, token) == Claims(claims)
            && RSplit(token, '.') == Some((SigningInput(json, header, claims), B64u(sig)))
  {
    hide Segment, ReadSegment, B64u, Split, RSplit, Lawful;
    ReadsBack(json, header);
    ReadsBack(json, claims);
    PaddingRestored(sig);
    TokenParts(Segment(json, header), Segment(json, claims), B64u(sig));
  }

  lemma EmptySegment()
    ensures B64u([]) == ""
  {
  }

  lemma ForgeriesAreTokens(json: Json, hmac: Hmac, key: Bytes, claims: Object)
    ensures ForgeAlgNone(json, claims) == Token(json, NONE_HEADER, claims, [])
    ensures ForgeHs256(json, hmac, key, claims)
            == Token(json, HS256_HEADER, claims, hmac(key, SigningInput(json, HS256_HEADER, claims)))
  {
    hide B64u;
    EmptySegment();
  }

  // ---------------------------------------------------------------- the verifiers

  /** What both verifiers do with a token, by the algorithm its header names: `none` is believed, HS256 checked
      under the public key, RS256 left to the library, and anything else refused; pinned, only RS256 gets that far. */
  lemma VerdictByAlgorithm(json: Json, hmac: Hmac, publicPem: Bytes, rsa: string -> Outcome,
                           header: Object, claims: Object, sig: Bytes)
    requires Lawful(json)
    ensures var token := Token(json, header, claims, sig);
            var genuine := "alg" in header && header["alg"] == "RS256";
            && StrictVerify(json, rsa, token) == (if genuine then rsa(token) else Raised)
            && ConfusedVerify(json, hmac, publicPem, rsa, token) ==
               if "alg" in header && header["alg"] == "none" then Claims(claims)
               else if "alg" in header && header["alg"] == "HS256" then
                 (if sig == hmac(publicPem, SigningInput(json, header, claims)) then Claims(claims) else Raised)
               else if genuine then rsa(token) else Raised
  {
    TokenReadsBack(json, header, claims, sig);
    assert Alg(header) != "" ==> "alg" in header;
    hide UnverifiedHeader, UnverifiedClaims, SigningInput, RSplit, B64u, Lawful, Token;
    var tag := hmac(publicPem, SigningInput(json, header, claims));
    if B64u(tag) == B64u(sig) {
      Injective(tag, sig);
    }
  }

  /** Fewer than three segments are refused by both. */
  lemma ShortTokenRaises(json: Json, hmac: Hmac, publicPem: Bytes, rsa: string -> Outcome, parts: seq<string>)
    requires 0 < |parts| < 3 && forall p :: p in parts ==> '.' !in p
    ensures StrictVerify(json, rsa, Join(parts, '.')) == Raised
    ensures ConfusedVerify(json, hmac, publicPem, rsa, Join(parts, '.')) == Raised
  {
    SplitJoin(parts, '.');
    hide Split, Join, RSplit;
  }

  /** Any token that names HS256 is accepted, with exactly its claims, if and only if its signature
      bytes are the HMAC of its first two segments under the public key. */
  lemma Hs256AcceptedIff(json: Json, hmac: Hmac, publicPem: Bytes, rsa: string -> Outcome, claims: Object, sig: Bytes)
    requires Lawful(json)
    ensures ConfusedVerify(json, hmac, publicPem, rsa, Token(json, HS256_HEADER, claims, sig)) ==
            if sig == hmac(publicPem, SigningInput(json, HS256_HEADER, claims)) then Claims(claims) else Raised
  {
    VerdictByAlgorithm(json, hmac, publicPem, rsa, HS256_HEADER, claims, sig);
    hide *;
    assert HS256_HEADER["alg"] == "HS256";
  }

  /** Both forgeries carry any claims whatever past the header-trusting verifier, and neither is
      accepted by the pinned one; a forgery under another key passes only on a tag collision. */
  lemma Forgeries(json: Json, hmac: Hmac, publicPem: Bytes, other: Bytes, rsa: string -> Outcome, claims: Object)
    requires Lawful(json)
    ensures ConfusedVerify(json, hmac, publicPem, rsa, ForgeAlgNone(json, claims)) == Claims(claims)
    ensures ConfusedVerify(json, hmac, publicPem, rsa, ForgeHs256(json, hmac, publicPem, claims)) == Claims(claims)
    ensures StrictVerify(json, rsa, ForgeAlgNone(json, claims)) == Raised
    ensures StrictVerify(json, rsa, ForgeHs256(json, hmac, publicPem, claims)) == Raised
    ensures var input := SigningInput(json, HS256_HEADER, claims);
            ConfusedVerify(json, hmac, publicPem, rsa, ForgeHs256(json, hmac, other, claims)) == Claims(claims)
            <==> hmac(other, input) == hmac(publicPem, input)
  {
    var input := SigningInput(json, HS256_HEADER, claims);
    ForgeriesAreTokens(json, hmac, publicPem, claims);
    ForgeriesAreTokens(json, hmac, other, claims);
    TokenReadsBack(json, NONE_HEADER, claims, []);
    TokenReadsBack(json, HS256_HEADER, claims, hmac(publicPem, input));
    Hs256AcceptedIff(json, hmac, publicPem, rsa, claims, hmac(publicPem, input));
    Hs256AcceptedIff(json, hmac, publicPem, rsa, claims, hmac(other, input));
    assert Alg(NONE_HEADER) == "none" && Alg(HS256_HEADER) == "HS256";
    hide UnverifiedHeader, UnverifiedClaims, SigningInput, RSplit, B64u, Lawful, Token, ForgeAlgNone, ForgeHs256;
  }
}
