/** The tamper-evident audit log: each entry's tag authenticates the previous tag and its own data.

    The MAC is any function with 32-byte tags. Such a function cannot be injective, so no theorem
    assumes that it is: they either name the two colliding messages or ask that no two messages
    made from this very log collide. Entry data are the encoded bytes. */
module HashChain {
  import opened Text

  type Mac = Bytes -> Bytes

  datatype Entry = Entry(data: Bytes, mac: Bytes)

  ghost predicate TagsOf32(mac: Mac) {
    forall m :: |mac(m)| == 32
  }

  /** The tag an entry is chained to: empty for the first. */
  function PrevTag(es: seq<Entry>, i: int): Bytes
    requires 0 <= i <= |es|
  {
    if i == 0 then [] else es[i - 1].mac
  }

  function VerifyFrom(mac: Mac, prev: Bytes, es: seq<Entry>): bool
    decreases |es|
  {
    es == [] || (mac(prev + es[0].data) == es[0].mac && VerifyFrom(mac, es[0].mac, es[1..]))
  }

  /** The message authenticated at position `i`. */
  function Message(es: seq<Entry>, i: int): Bytes
    requires 0 <= i < |es|
  {
    PrevTag(es, i) + es[i].data
  }

  ghost predicate Chained(mac: Mac, es: seq<Entry>) {
    forall i :: 0 <= i < |es| ==> mac(Message(es, i)) == es[i].mac
  }

  /** `verify` accepts exactly the chained sequences. */
  lemma {:induction false} VerifyIsChained(mac: Mac, es: seq<Entry>)
    ensures VerifyFrom(mac, [], es) <==> Chained(mac, es)
  {
    VerifySuffix(mac, es, 0);
  }

  lemma {:induction false} VerifySuffix(mac: Mac, es: seq<Entry>, n: nat)
    requires n <= |es|
    ensures VerifyFrom(mac, PrevTag(es, n), es[n..]) <==>
            forall i :: n <= i < |es| ==> mac(Message(es, i)) == es[i].mac
    decreases |es| - n
  {
    if n < |es| {
      VerifySuffix(mac, es, n + 1);
      assert es[n..][1..] == es[n + 1..];
      assert mac(PrevTag(es, n) + es[n..][0].data) == mac(Message(es, n));
    }
  }

  /** The tag `append` gives the entry at `i`; the empty tag precedes them all. */
  function Tag(mac: Mac, data: seq<Bytes>, i: int): Bytes
    requires -1 <= i < |data|
    decreases i + 1
  {
    if i == -1 then [] else mac(Tag(mac, data, i - 1) + data[i])
  }

  /** The log after appending `data` in order. */
  function Appended(mac: Mac, data: seq<Bytes>): seq<Entry> {
    seq(|data|, i requires 0 <= i < |data| => Entry(data[i], Tag(mac, data, i)))
  }

  lemma {:induction false} TagOfPrefix(mac: Mac, data: seq<Bytes>, more: Bytes, i: int)
    requires -1 <= i < |data|
    ensures Tag(mac, data + [more], i) == Tag(mac, data, i)
    decreases i + 1
  {
    if i >= 0 {
      TagOfPrefix(mac, data, more, i - 1);
    }
  }

  lemma AppendedSnoc(mac: Mac, data: seq<Bytes>, more: Bytes)
    ensures var es := Appended(mac, data);
            Appended(mac, data + [more]) == es + [Entry(more, mac(PrevTag(es, |es|) + more))]
  {
    var es := Appended(mac, data);
    forall i | 0 <= i < |data|
      ensures Tag(mac, data + [more], i) == Tag(mac, data, i)
    {
      TagOfPrefix(mac, data, more, i);
    }
    TagOfPrefix(mac, data, more, |data| - 1);
    assert PrevTag(es, |es|) == Tag(mac, data, |data| - 1);
  }

  class HashChainedLog {
    const mac: Mac
    var entries: seq<Entry>

    constructor (secret: Bytes, hmac: (Bytes, Bytes) -> Bytes)
      ensures entries == Appended(mac, [])
      ensures forall m :: mac(m) == hmac(secret, m)
    {
      mac := m => hmac(secret, m);
      entries := [];
    }

    method Append(data: Bytes)
      modifies this
      ensures entries == old(entries) + [Entry(data, mac(PrevTag(old(entries), |old(entries)|) + data))]
      ensures forall ds :: old(entries) == Appended(mac, ds) ==> entries == Appended(mac, ds + [data])
    {
      var prev := if entries == [] then [] else entries[|entries| - 1].mac;
      forall ds | entries == Appended(mac, ds)
        ensures Appended(mac, ds + [data]) == entries + [Entry(data, mac(PrevTag(entries, |entries|) + data))]
      {
        AppendedSnoc(mac, ds, data);
      }
      entries := entries + [Entry(data, mac(prev + data))];
    }

    method Verify() returns (ok: bool)
      ensures ok <==> Chained(mac, entries)
    {
      VerifyIsChained(mac, entries);
      hide Chained, Message, Tag;
      var prev: Bytes := [];
      for i := 0 to |entries|
        invariant VerifyFrom(mac, prev, entries[i..]) == VerifyFrom(mac, [], entries)
      {
        assert entries[i..][0] == entries[i] && entries[i..][1..] == entries[i + 1..];
        if mac(prev + entries[i].data) != entries[i].mac {
          return false;
        }
        prev := entries[i].mac;
      }
      ok := true;
    }

    /** Rewrites the data and leaves the stale tag; a negative index counts from the end, and one
        outside the list is an IndexError. */
    method Tamper(index: int, data: Bytes) returns (raised: bool)
      modifies this
      ensures raised <==> !(-|old(entries)| <= index < |old(entries)|)
      ensures raised ==> entries == old(entries)
      ensures !raised ==> entries == Tampered(old(entries), if index < 0 then index + |old(entries)| else index, data)
    {
      var i := if index < 0 then index + |entries| else index;
      if 0 <= i < |entries| {
        entries := entries[i := Entry(data, entries[i].mac)];
        raised := false;
      } else {
        raised := true;
      }
    }
  }

  function Tampered(es: seq<Entry>, i: int, data: Bytes): seq<Entry>
    requires 0 <= i < |es|
  {
    es[i := Entry(data, es[i].mac)]
  }

  /** Rewriting one entry of an intact log goes unnoticed exactly when the data are the same or the
      old and the new message of that entry collide. */
  lemma TamperDetected(mac: Mac, es: seq<Entry>, i: int, data: Bytes)
    requires Chained(mac, es) && 0 <= i < |es|
    ensures var before, after := Message(es, i), PrevTag(es, i) + data;
            Chained(mac, Tampered(es, i, data)) <==>
            data == es[i].data || (before != after && mac(before) == mac(after))
  {
    var t := Tampered(es, i, data);
    TamperedMessages(es, i, data);
    hide Message, PrevTag, Tampered;
    assert mac(Message(es, i)) == es[i].mac;
    if mac(Message(t, i)) == es[i].mac {
      forall j | 0 <= j < |t|
        ensures mac(Message(t, j)) == t[j].mac
      {
        assert mac(Message(es, j)) == es[j].mac;
      }
    }
  }

  lemma TamperedMessages(es: seq<Entry>, i: int, data: Bytes)
    requires 0 <= i < |es|
    ensures var t := Tampered(es, i, data);
            && |t| == |es| && t[i].mac == es[i].mac
            && (forall j :: 0 <= j < |es| && j != i ==> Message(t, j) == Message(es, j) && t[j] == es[j])
            && Message(t, i) == PrevTag(es, i) + data
            && (Message(t, i) == Message(es, i) <==> data == es[i].data)
  {
    var t := Tampered(es, i, data);
    assert forall j :: 0 <= j <= |es| ==> PrevTag(t, j) == PrevTag(es, j);
    var p := |PrevTag(es, i)|;
    assert Message(es, i)[p..] == es[i].data && Message(t, i)[p..] == data;
  }

  ghost predicate Collides(mac: Mac, a: seq<Entry>, b: seq<Entry>, i: int)
    requires 0 <= i < |a| && i < |b|
  {
    Message(a, i) != Message(b, i) && mac(Message(a, i)) == mac(Message(b, i))
  }

  /** Two intact logs of one length that end in the same tag are the same log, or some position
      exhibits two different messages with one tag. */
  lemma {:induction false} SameEndSameLog(mac: Mac, a: seq<Entry>, b: seq<Entry>)
    requires TagsOf32(mac) && Chained(mac, a) && Chained(mac, b)
    requires |a| == |b| > 0 && a[|a| - 1].mac == b[|b| - 1].mac
    ensures a == b || SomeCollision(mac, a, b)
    decreases |a|
  {
    hide Chained, TagsOf32, Collides, SomeCollision, Message, PrevTag;
    var n := |a| - 1;
    LastEntries(mac, a, b);
    ChainedInit(mac, a);
    ChainedInit(mac, b);
    CollidesIsSome(mac, a, b, n);
    var a', b' := a[..n], b[..n];
    assert a == a' + [a[n]] && b == b' + [b[n]];
    if n > 0 && !Collides(mac, a, b, n) {
      assert a'[n - 1] == a[n - 1] && b'[n - 1] == b[n - 1];
      SameEndSameLog(mac, a', b');
      SomeCollisionInit(mac, a, b);
    }
  }

  lemma CollidesIsSome(mac: Mac, a: seq<Entry>, b: seq<Entry>, i: int)
    requires |a| == |b| && 0 <= i < |a|
    ensures Collides(mac, a, b, i) ==> SomeCollision(mac, a, b)
  {
  }

  ghost predicate SomeCollision(mac: Mac, a: seq<Entry>, b: seq<Entry>)
    requires |a| == |b|
  {
    exists i :: 0 <= i < |a| && Collides(mac, a, b, i)
  }

  lemma SomeCollisionInit(mac: Mac, a: seq<Entry>, b: seq<Entry>)
    requires |a| == |b| > 0
    ensures SomeCollision(mac, a[..|a| - 1], b[..|b| - 1]) ==> SomeCollision(mac, a, b)
  {
    if SomeCollision(mac, a[..|a| - 1], b[..|b| - 1]) {
      var i :| 0 <= i < |a| - 1 && Collides(mac, a[..|a| - 1], b[..|b| - 1], i);
      CollidesInit(mac, a, b, i);
    }
  }

  /** Equal last tags without a collision: equal last entries and equal tags before them. */
  lemma LastEntries(mac: Mac, a: seq<Entry>, b: seq<Entry>)
    requires TagsOf32(mac) && Chained(mac, a) && Chained(mac, b)
    requires |a| == |b| > 0 && a[|a| - 1].mac == b[|b| - 1].mac
    ensures var n := |a| - 1;
            Collides(mac, a, b, n) || (a[n] == b[n] && (n > 0 ==> a[n - 1].mac == b[n - 1].mac))
  {
    var n := |a| - 1;
    assert mac(Message(a, n)) == a[n].mac && mac(Message(b, n)) == b[n].mac;
    if !Collides(mac, a, b, n) {
      PrevTagLength(mac, a, n);
      PrevTagLength(mac, b, n);
      SamePrefix(PrevTag(a, n), a[n].data, PrevTag(b, n), b[n].data);
    }
  }

  lemma PrevTagLength(mac: Mac, es: seq<Entry>, n: int)
    requires TagsOf32(mac) && Chained(mac, es) && 0 <= n <= |es|
    ensures |PrevTag(es, n)| == if n == 0 then 0 else 32
  {
    if n > 0 {
      assert mac(Message(es, n - 1)) == es[n - 1].mac;
    }
  }

  lemma ChainedInit(mac: Mac, es: seq<Entry>)
    requires Chained(mac, es) && es != []
    ensures Chained(mac, es[..|es| - 1])
  {
    var init := es[..|es| - 1];
    forall i | 0 <= i < |init|
      ensures mac(Message(init, i)) == init[i].mac
    {
      assert Message(init, i) == Message(es, i);
    }
  }

  lemma CollidesInit(mac: Mac, a: seq<Entry>, b: seq<Entry>, i: int)
    requires |a| == |b| > 0 && 0 <= i < |a| - 1 && Collides(mac, a[..|a| - 1], b[..|b| - 1], i)
    ensures Collides(mac, a, b, i)
  {
    assert Message(a[..|a| - 1], i) == Message(a, i) && Message(b[..|b| - 1], i) == Message(b, i);
  }

  lemma SamePrefix(p: Bytes, x: Bytes, q: Bytes, y: Bytes)
    requires p + x == q + y && |p| == |q|
    ensures p == q && x == y
  {
    assert p == (p + x)[..|p|] && q == (q + y)[..|q|];
    assert x == (p + x)[|p|..] && y == (q + y)[|q|..];
  }

  // ---------------------------------------------------------------- entries drawn from one log

  /** A sequence of the log's own entries, in any order, with repeats and gaps. */
  function Drawn(es: seq<Entry>, idx: seq<nat>): seq<Entry>
    requires forall k :: 0 <= k < |idx| ==> idx[k] < |es|
  {
    seq(|idx|, k requires 0 <= k < |idx| => es[idx[k]])
  }

  predicate Within(idx: seq<nat>, n: nat) {
    forall k :: 0 <= k < |idx| ==> idx[k] < n
  }

  predicate IsPrefix(idx: seq<nat>) {
    forall k :: 0 <= k < |idx| ==> idx[k] == k
  }

  /** The message that would chain datum `b` to the tag of entry `a`. */
  function Link(mac: Mac, data: seq<Bytes>, a: int, b: int): Bytes
    requires -1 <= a < |data| && 0 <= b < |data|
  {
    Tag(mac, data, a) + data[b]
  }

  /** No two of the finitely many messages that pair a tag of the log with a datum of the log collide. */
  ghost predicate NoCollision(mac: Mac, data: seq<Bytes>) {
    forall a, b, c, d :: -1 <= a < |data| && 0 <= b < |data| && -1 <= c < |data| && 0 <= d < |data| ==>
      (mac(Link(mac, data, a, b)) == mac(Link(mac, data, c, d)) ==> Link(mac, data, a, b) == Link(mac, data, c, d))
  }

  /** The message that entry `j` authenticates. */
  function Own(mac: Mac, data: seq<Bytes>, j: int): Bytes
    requires 0 <= j < |data|
  {
    Link(mac, data, j - 1, j)
  }

  /** The first datum is not a later entry's message, tag bytes included. */
  ghost predicate HeadFree(mac: Mac, data: seq<Bytes>) {
    forall j :: 0 < j < |data| ==> data[0] != Own(mac, data, j)
  }

  lemma LinkShape(mac: Mac, data: seq<Bytes>, a: int, b: int)
    requires TagsOf32(mac) && -1 <= a < |data| && 0 <= b < |data|
    ensures Link(mac, data, a, b) == Tag(mac, data, a) + data[b]
    ensures |Tag(mac, data, a)| == if a == -1 then 0 else 32
    ensures Tag(mac, data, b) == mac(Link(mac, data, b - 1, b))
  {
  }

  lemma LinksEqual(mac: Mac, data: seq<Bytes>, a: int, b: int, c: int, d: int)
    requires TagsOf32(mac) && -1 <= a < |data| && 0 <= b < |data| && -1 <= c < |data| && 0 <= d < |data|
    requires Link(mac, data, a, b) == Link(mac, data, c, d)
    requires (a == -1 <==> c == -1) || data[b] == data[d]
    ensures Tag(mac, data, a) == Tag(mac, data, c) && data[b] == data[d]
  {
    LinkShape(mac, data, a, b);
    LinkShape(mac, data, c, d);
    hide Tag, Link, TagsOf32;
    assert |Tag(mac, data, a)| + |data[b]| == |Tag(mac, data, c)| + |data[d]|;
    SamePrefix(Tag(mac, data, a), data[b], Tag(mac, data, c), data[d]);
  }

  lemma {:induction false} TagsDistinct(mac: Mac, data: seq<Bytes>, i: int, j: int)
    requires TagsOf32(mac) && NoCollision(mac, data) && HeadFree(mac, data)
    requires -1 <= i < j < |data|
    ensures Tag(mac, data, i) != Tag(mac, data, j)
    decreases i + 1
  {
    LinkShape(mac, data, j, j);
    LinkShape(mac, data, -1, 0);
    assert Link(mac, data, -1, 0) == data[0];
    if i >= 0 {
      LinkShape(mac, data, i - 1, i);
      assert Own(mac, data, j) == Link(mac, data, j - 1, j);
      hide Tag, Link, TagsOf32, Own;
      if i > 0 && Tag(mac, data, i) == Tag(mac, data, j) {
        assert Link(mac, data, i - 1, i) == Link(mac, data, j - 1, j);
        LinksEqual(mac, data, i - 1, i, j - 1, j);
        TagsDistinct(mac, data, i - 1, j - 1);
      }
    }
  }

  /** One step of a drawn walk is accepted only from an entry to its successor. */
  lemma StepIsSuccessor(mac: Mac, data: seq<Bytes>, from: int, to: int)
    requires TagsOf32(mac) && NoCollision(mac, data) && HeadFree(mac, data)
    requires -1 <= from < |data| && 0 <= to < |data|
    ensures mac(Link(mac, data, from, to)) == Tag(mac, data, to) <==> from + 1 == to
  {
    LinkShape(mac, data, from, to);
    hide Tag, Link, TagsOf32, HeadFree;
    if mac(Link(mac, data, from, to)) == Tag(mac, data, to) {
      assert Link(mac, data, from, to) == Link(mac, data, to - 1, to);
      LinksEqual(mac, data, from, to, to - 1, to);
      if from < to - 1 {
        TagsDistinct(mac, data, from, to - 1);
      } else if to - 1 < from {
        TagsDistinct(mac, data, to - 1, from);
      }
    }
  }

  lemma ChainedSnoc(mac: Mac, es: seq<Entry>)
    requires es != []
    ensures var n := |es| - 1;
            Chained(mac, es) <==> Chained(mac, es[..n]) && mac(Message(es, n)) == es[n].mac
  {
    var n := |es| - 1;
    var init := es[..n];
    if Chained(mac, es) {
      ChainedInit(mac, es);
    }
    if Chained(mac, init) && mac(Message(es, n)) == es[n].mac {
      forall k | 0 <= k < |es|
        ensures mac(Message(es, k)) == es[k].mac
      {
        if k < n {
          MessageInit(es, k);
          assert mac(Message(init, k)) == init[k].mac;
        }
      }
    }
  }

  lemma MessageInit(es: seq<Entry>, k: int)
    requires 0 <= k < |es| - 1
    ensures Message(es[..|es| - 1], k) == Message(es, k)
  {
  }

  lemma AppendedAt(mac: Mac, data: seq<Bytes>, i: int)
    requires 0 <= i < |data|
    ensures Appended(mac, data)[i] == Entry(data[i], Tag(mac, data, i))
  {
    hide Tag;
  }

  lemma DrawnAt(es: seq<Entry>, idx: seq<nat>)
    requires Within(idx, |es|) && idx != []
    ensures var n := |idx| - 1; var d := Drawn(es, idx);
            && d[..n] == Drawn(es, idx[..n]) && d[n] == es[idx[n]]
            && PrevTag(d, n) == if n == 0 then [] else es[idx[n - 1]].mac
  {
  }

  lemma DrawnLast(mac: Mac, data: seq<Bytes>, idx: seq<nat>)
    requires Within(idx, |data|) && idx != []
    ensures var n := |idx| - 1;
            var from: int := if n == 0 then -1 else idx[n - 1];
            var es := Drawn(Appended(mac, data), idx);
            && es[..n] == Drawn(Appended(mac, data), idx[..n])
            && es[n].mac == Tag(mac, data, idx[n])
            && Message(es, n) == Link(mac, data, from, idx[n])
  {
    var n := |idx| - 1;
    AppendedLength(mac, data);
    AppendedAt(mac, data, idx[n]);
    if n > 0 {
      AppendedAt(mac, data, idx[n - 1]);
    }
    LastTag(mac, data);
    hide Appended, Tag, Drawn, PrevTag;
    DrawnAt(Appended(mac, data), idx);
  }

  lemma AppendedLength(mac: Mac, data: seq<Bytes>)
    ensures |Appended(mac, data)| == |data|
  {
    hide Tag;
  }

  lemma LastTag(mac: Mac, data: seq<Bytes>)
    ensures Tag(mac, data, -1) == []
  {
  }

  lemma IsPrefixSnoc(idx: seq<nat>)
    requires idx != []
    ensures IsPrefix(idx) <==> IsPrefix(idx[..|idx| - 1]) && idx[|idx| - 1] == |idx| - 1
  {
    var init := idx[..|idx| - 1];
    assert forall k :: 0 <= k < |init| ==> init[k] == idx[k];
  }

  lemma {:induction false} DrawnVerifiesIffPrefix(mac: Mac, data: seq<Bytes>, idx: seq<nat>)
    requires TagsOf32(mac) && NoCollision(mac, data) && HeadFree(mac, data)
    requires Within(idx, |data|)
    ensures Chained(mac, Drawn(Appended(mac, data), idx)) <==> IsPrefix(idx)
    decreases |idx|
  {
    if idx != [] {
      var n := |idx| - 1;
      var es := Drawn(Appended(mac, data), idx);
      DrawnLast(mac, data, idx);
      IsPrefixSnoc(idx);
      ChainedSnoc(mac, es);
      var from: int := if n == 0 then -1 else idx[n - 1];
      StepIsSuccessor(mac, data, from, idx[n]);
      DrawnVerifiesIffPrefix(mac, data, idx[..n]);
      hide TagsOf32, NoCollision, HeadFree, Chained, Message, Tag, Link, Drawn, Appended;
      if IsPrefix(idx[..n]) {
        assert n > 0 ==> idx[..n][n - 1] == n - 1;
      }
    }
  }

  /** The walk 0, 1, .., j, 1. */
  function Loop(j: nat): seq<nat> {
    seq(j + 2, k => if 0 <= k <= j then k else 1)
  }

  /** Should the first datum be the message of entry `j`, tags repeat and a looping walk passes. */
  lemma LoopPasses(mac: Mac, data: seq<Bytes>, j: int)
    requires 0 < j < |data| && data[0] == Own(mac, data, j)
    ensures Within(Loop(j), |data|) && !IsPrefix(Loop(j))
    ensures Chained(mac, Drawn(Appended(mac, data), Loop(j)))
  {
    var idx := Loop(j);
    var es := Drawn(Appended(mac, data), idx);
    assert idx[j + 1] == 1;
    assert [] + data[0] == data[0];
    assert Tag(mac, data, 0) == mac(Tag(mac, data, -1) + data[0]);
    assert Tag(mac, data, 0) == Tag(mac, data, j);
    forall k | 0 <= k < |es|
      ensures mac(Message(es, k)) == es[k].mac
    {
      if k <= j {
        assert Message(es, k) == Tag(mac, data, k - 1) + data[k];
      } else {
        assert Message(es, k) == Tag(mac, data, 0) + data[1];
      }
    }
  }

  /** Of everything that can be drawn from a log, `verify` accepts the prefixes and nothing else,
      precisely when the first datum does not open with another entry's tag and repeat its data. */
  lemma OnlyPrefixesVerify(mac: Mac, data: seq<Bytes>)
    requires TagsOf32(mac) && NoCollision(mac, data)
    ensures HeadFree(mac, data) <==>
            forall idx :: Within(idx, |data|) ==>
              (Chained(mac, Drawn(Appended(mac, data), idx)) <==> IsPrefix(idx))
  {
    if HeadFree(mac, data) {
      forall idx | Within(idx, |data|)
        ensures Chained(mac, Drawn(Appended(mac, data), idx)) <==> IsPrefix(idx)
      {
        DrawnVerifiesIffPrefix(mac, data, idx);
      }
    } else {
      var j :| 0 < j < |data| && data[0] == Own(mac, data, j);
      LoopPasses(mac, data, j);
    }
  }

  function Block(b: Byte): Bytes {
    seq(32, _ => b)
  }

  /** A MAC with 32-byte tags, and a log of two entries. */
  function SampleMac(): Mac {
    (m: Bytes) => Block(if |m| == 32 then 0 else if |m| == 0 then 1 else 2)
  }

  const SAMPLE_DATA: seq<Bytes> := [Block(0), []]

  lemma SampleTags()
    ensures Tag(SampleMac(), SAMPLE_DATA, -1) == []
    ensures Tag(SampleMac(), SAMPLE_DATA, 0) == Block(0) && Tag(SampleMac(), SAMPLE_DATA, 1) == Block(0)
  {
    var mac, data := SampleMac(), SAMPLE_DATA;
    assert Tag(mac, data, -1) + data[0] == Block(0);
    assert Tag(mac, data, 0) == mac(Block(0)) == Block(0);
    assert Tag(mac, data, 0) + data[1] == Block(0);
  }

  /** The exception occurs: this log is free of collisions, but its first datum is its second entry's
      message, and a walk that comes back to the second entry verifies. */
  lemma HeadOccurs()
    ensures TagsOf32(SampleMac()) && NoCollision(SampleMac(), SAMPLE_DATA)
    ensures !HeadFree(SampleMac(), SAMPLE_DATA)
    ensures Within([0, 1, 1], 2) && Chained(SampleMac(), Drawn(Appended(SampleMac(), SAMPLE_DATA), [0, 1, 1]))
  {
    var mac, data := SampleMac(), SAMPLE_DATA;
    SampleTags();
    hide Tag;
    forall a, b | -1 <= a < 2 && 0 <= b < 2
      ensures var n := |Link(mac, data, a, b)|;
              && (n == 0 || n == 32 || n == 64)
              && Link(mac, data, a, b) == if n == 0 then [] else if n == 32 then Block(0) else Block(0) + Block(0)
    {
      assert [] + Block(0) == Block(0) == Block(0) + [];
    }
    forall a, b | -1 <= a < 2 && 0 <= b < 2
      ensures mac(Link(mac, data, a, b))[0] ==
              (var n := |Link(mac, data, a, b)|; if n == 32 then 0 else if n == 0 then 1 else 2)
    {
    }
    assert Own(mac, data, 1) == data[0] by {
      assert Block(0) + [] == Block(0);
    }
    LoopPasses(mac, data, 1);
    assert Loop(1) == [0, 1, 1];
  }
}
