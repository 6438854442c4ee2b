/** Webhook signatures: an HMAC over `timestamp.payload` and a replay window. */
module Webhook {
  import opened Text

  /** HMAC-SHA256 of a text's encoding under the shared secret. */
  type Mac = string -> Bytes

  const WINDOW := 300

  function SignedText(payload: string, timestamp: int): string {
    DecimalInt(timestamp) + ['.'] + payload
  }

  function Sign(mac: Mac, payload: string, timestamp: int): string {
    Hex(mac(SignedText(payload, timestamp)))
  }

  function Abs(n: int): nat {
    if n < 0 then -n else n
  }

  predicate Verify(mac: Mac, payload: string, signature: string, timestamp: int, now: int) {
    if Abs(now - timestamp) > WINDOW then false
    else FromHex(signature) == Some(mac(SignedText(payload, timestamp)))
  }

  /** The first dot ends the timestamp, whatever the payload holds, so no two requests are signed
      over one text. */
  lemma SignedTextInjective(p: string, t: int, p': string, t': int)
    ensures SignedText(p, t) == SignedText(p', t') <==> p == p' && t == t'
  {
    DecimalIntAlphabet(t, '.');
    DecimalIntAlphabet(t', '.');
    if SignedText(p, t) == SignedText(p', t') {
      FirstDot(DecimalInt(t), p);
      FirstDot(DecimalInt(t'), p');
      DecimalIntInjective(t, t');
    }
  }

  lemma FirstDot(head: string, tail: string)
    requires '.' !in head
    ensures var s := head + ['.'] + tail;
            Find(s, '.') == |head| && s[..|head|] == head && s[|head| + 1..] == tail
  {
    var s := head + ['.'] + tail;
    assert s[|head|] == '.';
    assert forall k :: 0 <= k < |head| ==> s[k] == head[k];
    hide Find;
    assert forall k :: 0 <= k < |head| ==> head[k] in head;
  }

  /** A signature made for one request is accepted for another at `now` exactly when the two are the
      same request and the window is open, unless their two texts collide. */
  lemma AcceptedIff(mac: Mac, p: string, t: int, p': string, t': int, now: int)
    requires mac(SignedText(p, t)) == mac(SignedText(p', t')) ==> SignedText(p, t) == SignedText(p', t')
    ensures Verify(mac, p', Sign(mac, p, t), t', now) <==> p == p' && t == t' && -300 <= now - t' <= 300
  {
    HexRoundTrip(mac(SignedText(p, t)));
    SignedTextInjective(p, t, p', t');
  }

  /** Any signature text at all is accepted exactly in the window, and if it spells the MAC of timestamp, dot
      and payload in hexadecimal; everything that spells no bytes is refused. */
  lemma VerifyIff(mac: Mac, payload: string, signature: string, timestamp: int, now: int)
    ensures Verify(mac, payload, signature, timestamp, now) <==>
            timestamp - 300 <= now <= timestamp + 300
            && Spells(signature, mac(DecimalInt(timestamp) + "." + payload))
  {
    FromHexIff(signature, mac(SignedText(payload, timestamp)));
    hide FromHex, Spells;
  }
}
