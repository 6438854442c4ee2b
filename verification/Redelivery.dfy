/** A queue with several consumers as interleaved steps (AMQP 0-9-1, class basic): consumers that
    acknowledge after processing, consumers that are acknowledged on delivery, and what each loses. */
module Redelivery {
  type Msg = nat

  /** A message handed to a channel under a delivery tag. */
  datatype Delivery = Delivery(channel: nat, tag: nat, body: Msg)

  /** Where a consumer stands inside `process_one`; `Taken` is an auto-ack consumer at work. */
  datatype Pc = Idle | Got(d: Delivery) | Processed(d: Delivery, ok: bool) | Taken(d: Delivery)

  /** `taken` are the deliveries that auto-ack consumers work on: the broker no longer knows them. */
  datatype World = World(
    ready: seq<Msg>, requeuing: seq<Msg>, unacked: seq<Delivery>, taken: seq<Delivery>, nextTag: nat, pcs: map<nat, Pc>,
    published: seq<Msg>, acked: seq<Delivery>, processed: set<Delivery>,
    autoOk: seq<Delivery>, autoLost: seq<Delivery>)

  const START := World([], [], [], [], 0, map[], [], [], {}, [], [])

  /** `Abandon` is an exception that `except Exception` does not catch; `Settled` is the broker putting
      one negatively acknowledged message back; `AutoGet` takes a message off the broker for good, before
      `AutoDone` says how its processing went. */
  datatype Event =
    | Publish(m: Msg)
    | Get(c: nat)
    | Process(c: nat, ok: bool)
    | Reply(c: nat)
    | Abandon(c: nat)
    | Close(c: nat)
    | Settled
    | AutoGet(c: nat)
    | AutoDone(c: nat, ok: bool)

  function PcOf(w: World, c: nat): Pc {
    if c in w.pcs then w.pcs[c] else Idle
  }

  /** Deliveries other than `d`. */
  function Without(ds: seq<Delivery>, d: Delivery): seq<Delivery> {
    if ds == [] then [] else if ds[0] == d then ds[1..] else [ds[0]] + Without(ds[1..], d)
  }

  function OnChannel(ds: seq<Delivery>, c: nat): seq<Delivery> {
    if ds == [] then [] else (if ds[0].channel == c then [ds[0]] else []) + OnChannel(ds[1..], c)
  }

  function OffChannel(ds: seq<Delivery>, c: nat): (r: seq<Delivery>)
    ensures |r| <= |ds|
    ensures ds != [] && ds[0].channel == c ==> |r| < |ds|
  {
    if ds == [] then [] else (if ds[0].channel != c then [ds[0]] else []) + OffChannel(ds[1..], c)
  }

  function BodySeq(ds: seq<Delivery>): seq<Msg> {
    if ds == [] then [] else [ds[0].body] + BodySeq(ds[1..])
  }

  /** One step; an event that is not enabled changes nothing. */
  function Step(w: World, e: Event): World {
    match e
    case Publish(m) => w.(ready := w.ready + [m], published := w.published + [m])
    case Get(c) =>
      if PcOf(w, c).Idle? && w.ready != [] then
        var d := Delivery(c, w.nextTag, w.ready[0]);
        w.(ready := w.ready[1..], unacked := w.unacked + [d], nextTag := w.nextTag + 1, pcs := w.pcs[c := Got(d)])
      else w
    case Process(c, ok) =>
      if PcOf(w, c).Got? then
        var d := PcOf(w, c).d;
        w.(pcs := w.pcs[c := Processed(d, ok)], processed := w.processed + if ok then {d} else {})
      else w
    case Reply(c) =>
      if PcOf(w, c).Processed? then
        var d := PcOf(w, c).d;
        var w' := w.(pcs := w.pcs[c := Idle], unacked := Without(w.unacked, d));
        if PcOf(w, c).ok then w'.(acked := w.acked + [d]) else w'.(requeuing := w.requeuing + [d.body])
      else w
    case Abandon(c) =>
      if PcOf(w, c).Got? then w.(pcs := w.pcs[c := Idle])
      else if PcOf(w, c).Taken? then
        var d := PcOf(w, c).d;
        w.(pcs := w.pcs[c := Idle], taken := Without(w.taken, d), autoLost := w.autoLost + [d])
      else w
    case Close(c) =>
      w.(pcs := w.pcs[c := Idle], unacked := OffChannel(w.unacked, c), taken := OffChannel(w.taken, c),
         requeuing := w.requeuing + BodySeq(OnChannel(w.unacked, c)),
         autoLost := w.autoLost + OnChannel(w.taken, c))
    case Settled =>
      if w.requeuing != [] then w.(ready := [w.requeuing[0]] + w.ready, requeuing := w.requeuing[1..]) else w
    case AutoGet(c) =>
      if PcOf(w, c).Idle? && w.ready != [] then
        var d := Delivery(c, w.nextTag, w.ready[0]);
        w.(ready := w.ready[1..], taken := w.taken + [d], nextTag := w.nextTag + 1, pcs := w.pcs[c := Taken(d)])
      else w
    case AutoDone(c, ok) =>
      if PcOf(w, c).Taken? then
        var d := PcOf(w, c).d;
        var w' := w.(pcs := w.pcs[c := Idle], taken := Without(w.taken, d));
        if ok then w'.(autoOk := w.autoOk + [d]) else w'.(autoLost := w.autoLost + [d])
      else w
  }

  function Run(w: World, events: seq<Event>): World
    decreases |events|
  {
    if events == [] then w else Run(Step(w, events[0]), events[1..])
  }

  // ---------------------------------------------------------------- the invariant

  /** How often `m` occurs. */
  function Occ(s: seq<Msg>, m: Msg): nat {
    if s == [] then 0 else (if s[0] == m then 1 else 0) + Occ(s[1..], m)
  }

  /** How many of the deliveries carry `m`. */
  function Carried(ds: seq<Delivery>, m: Msg): nat {
    if ds == [] then 0 else (if ds[0].body == m then 1 else 0) + Carried(ds[1..], m)
  }

  /** Nothing appears or disappears: every published copy of a message is in exactly one place. */
  predicate Conserved(w: World, m: Msg) {
    Occ(w.published, m) == Occ(w.ready, m) + Occ(w.requeuing, m) + Carried(w.unacked, m) + Carried(w.acked, m)
                           + Carried(w.taken, m) + Carried(w.autoOk, m) + Carried(w.autoLost, m)
  }

  ghost predicate Distinct(ds: seq<Delivery>) {
    ds == [] || ((forall e :: e in ds[1..] ==> e.tag != ds[0].tag) && Distinct(ds[1..]))
  }

  /** Tags name deliveries: no delivery is both outstanding and acknowledged, or acknowledged twice. */
  ghost predicate TagsUnique(w: World) {
    && Distinct(w.unacked) && Distinct(w.acked) && Distinct(w.taken)
    && (forall d :: d in w.unacked || d in w.acked || d in w.taken ==> d.tag < w.nextTag)
    && (forall d, e :: d in w.unacked && e in w.acked ==> d.tag != e.tag)
  }

  /** A consumer at work holds a delivery of its own channel, outstanding or taken. */
  ghost predicate HeldOutstanding(w: World) {
    forall c :: c in w.pcs && !w.pcs[c].Idle? ==>
      w.pcs[c].d in (if w.pcs[c].Taken? then w.taken else w.unacked) && w.pcs[c].d.channel == c
  }

  /** Only what was processed without error is, or is about to be, acknowledged. */
  ghost predicate AckedProcessed(w: World) {
    && (forall d :: d in w.acked ==> d in w.processed)
    && (forall c :: c in w.pcs && w.pcs[c].Processed? && w.pcs[c].ok ==> w.pcs[c].d in w.processed)
  }

  ghost predicate Inv(w: World) {
    && (forall m :: Conserved(w, m))
    && TagsUnique(w) && HeldOutstanding(w) && AckedProcessed(w)
  }

  // ---------------------------------------------------------------- counting

  lemma {:induction false} OccConcat(a: seq<Msg>, b: seq<Msg>, m: Msg)
    ensures Occ(a + b, m) == Occ(a, m) + Occ(b, m)
  {
    if a == [] {
      assert a + b == b;
    } else {
      OccConcat(a[1..], b, m);
      assert (a + b)[1..] == a[1..] + b;
    }
  }

  lemma {:induction false} CarriedConcat(a: seq<Delivery>, b: seq<Delivery>, m: Msg)
    ensures Carried(a + b, m) == Carried(a, m) + Carried(b, m)
  {
    if a == [] {
      assert a + b == b;
    } else {
      CarriedConcat(a[1..], b, m);
      assert (a + b)[1..] == a[1..] + b;
    }
  }

  lemma {:induction false} CarriedWithout(ds: seq<Delivery>, d: Delivery, m: Msg)
    requires d in ds
    ensures Carried(ds, m) == Carried(Without(ds, d), m) + if d.body == m then 1 else 0
  {
    if ds[0] != d {
      CarriedWithout(ds[1..], d, m);
      assert Without(ds, d)[1..] == Without(ds[1..], d);
    }
  }

  lemma {:induction false} CarriedSplit(ds: seq<Delivery>, c: nat, m: Msg)
    ensures Carried(ds, m) == Carried(OffChannel(ds, c), m) + Carried(OnChannel(ds, c), m)
    ensures Carried(OnChannel(ds, c), m) == Occ(BodySeq(OnChannel(ds, c)), m)
  {
    if ds != [] {
      CarriedSplit(ds[1..], c, m);
      if ds[0].channel == c {
        assert OnChannel(ds, c)[1..] == OnChannel(ds[1..], c);
        assert BodySeq(OnChannel(ds, c))[1..] == BodySeq(OnChannel(ds[1..], c));
        assert OffChannel(ds, c) == OffChannel(ds[1..], c);
      } else {
        assert OffChannel(ds, c)[1..] == OffChannel(ds[1..], c);
        assert OnChannel(ds, c) == OnChannel(ds[1..], c);
      }
    }
  }

  lemma {:induction false} WithoutKeeps(ds: seq<Delivery>, d: Delivery)
    requires Distinct(ds) && d in ds
    ensures Distinct(Without(ds, d))
    ensures forall e :: e in Without(ds, d) <==> e in ds && e != d
  {
    assert forall e :: e in ds <==> e == ds[0] || e in ds[1..];
    if ds[0] != d {
      WithoutKeeps(ds[1..], d);
      assert Without(ds, d)[1..] == Without(ds[1..], d);
      assert forall e :: e in Without(ds, d) <==> e == ds[0] || e in Without(ds[1..], d);
    }
  }

  lemma OffChannelStep(ds: seq<Delivery>, c: nat)
    requires ds != []
    ensures OffChannel(ds, c) == (if ds[0].channel != c then [ds[0]] else []) + OffChannel(ds[1..], c)
    ensures ds[0].channel != c ==> OffChannel(ds, c)[0] == ds[0] && OffChannel(ds, c)[1..] == OffChannel(ds[1..], c)
    ensures ds[0].channel == c ==> OffChannel(ds, c) == OffChannel(ds[1..], c)
    ensures forall e :: e in OffChannel(ds, c) <==>
              (ds[0].channel != c && e == ds[0]) || e in OffChannel(ds[1..], c)
  {
  }

  lemma {:induction false} OffChannelKeeps(ds: seq<Delivery>, c: nat)
    requires Distinct(ds)
    ensures Distinct(OffChannel(ds, c))
    ensures forall e :: e in OffChannel(ds, c) <==> e in ds && e.channel != c
  {
    if ds != [] {
      OffChannelKeeps(ds[1..], c);
      OffChannelStep(ds, c);
      hide OffChannel;
      assert forall e :: e in ds <==> e == ds[0] || e in ds[1..];
    }
  }

  lemma {:induction false} DistinctSnoc(ds: seq<Delivery>, d: Delivery)
    requires Distinct(ds) && forall e :: e in ds ==> e.tag != d.tag
    ensures Distinct(ds + [d])
  {
    if ds == [] {
      assert [d][1..] == [];
    } else {
      assert (ds + [d])[1..] == ds[1..] + [d];
      DistinctSnoc(ds[1..], d);
    }
  }

  // ---------------------------------------------------------------- each step

  lemma OccOne(x: Msg, m: Msg)
    ensures Occ([x], m) == if x == m then 1 else 0
  {
    assert [x][1..] == [];
  }

  lemma CarriedOne(d: Delivery, m: Msg)
    ensures Carried([d], m) == if d.body == m then 1 else 0
  {
    assert [d][1..] == [];
  }

  lemma OccHead(s: seq<Msg>, m: Msg)
    requires s != []
    ensures Occ(s, m) == Occ(s[1..], m) + if s[0] == m then 1 else 0
  {
  }

  lemma StepConserves(w: World, e: Event, m: Msg)
    requires Conserved(w, m) && HeldOutstanding(w)
    ensures Conserved(Step(w, e), m)
  {
    hide Occ, Carried, Without, OffChannel, OnChannel, BodySeq;
    match e {
      case Publish(x) =>
        OccConcat(w.ready, [x], m);
        OccConcat(w.published, [x], m);
      case Get(c) =>
        if PcOf(w, c).Idle? && w.ready != [] {
          var d := Delivery(c, w.nextTag, w.ready[0]);
          CarriedConcat(w.unacked, [d], m);
          CarriedOne(d, m);
          OccHead(w.ready, m);
        }
      case Process(c, ok) =>
      case Reply(c) =>
        if PcOf(w, c).Processed? {
          var d := PcOf(w, c).d;
          CarriedWithout(w.unacked, d, m);
          CarriedConcat(w.acked, [d], m);
          OccConcat(w.requeuing, [d.body], m);
          CarriedOne(d, m);
          OccOne(d.body, m);
        }
      case Abandon(c) =>
        if PcOf(w, c).Taken? {
          CarriedWithout(w.taken, PcOf(w, c).d, m);
          CarriedConcat(w.autoLost, [PcOf(w, c).d], m);
          CarriedOne(PcOf(w, c).d, m);
        }
      case Close(c) =>
        CarriedSplit(w.unacked, c, m);
        OccConcat(w.requeuing, BodySeq(OnChannel(w.unacked, c)), m);
        CarriedSplit(w.taken, c, m);
        CarriedConcat(w.autoLost, OnChannel(w.taken, c), m);
      case Settled =>
        if w.requeuing != [] {
          OccHead(w.requeuing, m);
          OccConcat([w.requeuing[0]], w.ready, m);
          OccOne(w.requeuing[0], m);
        }
      case AutoGet(c) =>
        if PcOf(w, c).Idle? && w.ready != [] {
          var d := Delivery(c, w.nextTag, w.ready[0]);
          CarriedConcat(w.taken, [d], m);
          CarriedOne(d, m);
          OccHead(w.ready, m);
        }
      case AutoDone(c, ok) =>
        if PcOf(w, c).Taken? {
          var d := PcOf(w, c).d;
          CarriedWithout(w.taken, d, m);
          CarriedConcat(w.autoOk, [d], m);
          CarriedConcat(w.autoLost, [d], m);
          CarriedOne(d, m);
        }
    }
  }

  lemma StepKeepsTags(w: World, e: Event)
    requires TagsUnique(w) && HeldOutstanding(w)
    ensures TagsUnique(Step(w, e))
  {
    hide Distinct, Without, OffChannel, OnChannel, BodySeq;
    match e {
      case Get(c) =>
        if PcOf(w, c).Idle? && w.ready != [] {
          DistinctSnoc(w.unacked, Delivery(c, w.nextTag, w.ready[0]));
        }
      case Reply(c) =>
        if PcOf(w, c).Processed? {
          var d := PcOf(w, c).d;
          WithoutKeeps(w.unacked, d);
          DistinctSnoc(w.acked, d);
          SameTagSameDelivery(w.unacked, d);
        }
      case Abandon(c) =>
        if PcOf(w, c).Taken? {
          WithoutKeeps(w.taken, PcOf(w, c).d);
        }
      case Close(c) =>
        OffChannelKeeps(w.unacked, c);
        OffChannelKeeps(w.taken, c);
      case AutoGet(c) =>
        if PcOf(w, c).Idle? && w.ready != [] {
          DistinctSnoc(w.taken, Delivery(c, w.nextTag, w.ready[0]));
        }
      case AutoDone(c, _) =>
        if PcOf(w, c).Taken? {
          WithoutKeeps(w.taken, PcOf(w, c).d);
        }
      case _ =>
    }
  }

  lemma {:induction false} SameTagSameDelivery(ds: seq<Delivery>, d: Delivery)
    requires Distinct(ds) && d in ds
    ensures forall e :: e in ds && e.tag == d.tag ==> e == d
  {
    assert forall e :: e in ds <==> e == ds[0] || e in ds[1..];
    if d in ds[1..] {
      SameTagSameDelivery(ds[1..], d);
    }
  }

  lemma StepKeepsHeld(w: World, e: Event)
    requires TagsUnique(w) && HeldOutstanding(w)
    ensures HeldOutstanding(Step(w, e))
  {
    hide Distinct, Without, OffChannel, OnChannel, BodySeq;
    match e {
      case Reply(c) =>
        if PcOf(w, c).Processed? {
          WithoutKeeps(w.unacked, PcOf(w, c).d);
          assert PcOf(w, c).d.channel == c;
          hide HeldOutstanding;
          HeldElsewhere(w, Step(w, e), c);
        }
      case Abandon(c) =>
        if PcOf(w, c).Taken? {
          WithoutKeeps(w.taken, PcOf(w, c).d);
          assert PcOf(w, c).d.channel == c;
          hide HeldOutstanding;
          HeldElsewhere(w, Step(w, e), c);
        }
      case Close(c) =>
        OffChannelKeeps(w.unacked, c);
        OffChannelKeeps(w.taken, c);
        hide HeldOutstanding;
        HeldElsewhere(w, Step(w, e), c);
      case AutoDone(c, _) =>
        if PcOf(w, c).Taken? {
          WithoutKeeps(w.taken, PcOf(w, c).d);
          assert PcOf(w, c).d.channel == c;
          hide HeldOutstanding;
          HeldElsewhere(w, Step(w, e), c);
        }
      case _ =>
    }
  }

  /** A consumer that lets go of what it holds leaves the others theirs. */
  lemma HeldElsewhere(w: World, w': World, c: nat)
    requires HeldOutstanding(w) && w'.pcs == w.pcs[c := Idle]
    requires forall d :: d in w.unacked && d.channel != c ==> d in w'.unacked
    requires forall d :: d in w.taken && d.channel != c ==> d in w'.taken
    ensures HeldOutstanding(w')
  {
  }

  lemma StepKeepsProcessed(w: World, e: Event)
    requires AckedProcessed(w)
    ensures AckedProcessed(Step(w, e))
  {
    hide Without, OffChannel, OnChannel, BodySeq;
  }

  lemma {:induction false} RunKeepsInv(w: World, events: seq<Event>)
    requires Inv(w)
    ensures Inv(Run(w, events))
    decreases |events|
  {
    if events != [] {
      var e := events[0];
      forall m: Msg
        ensures Conserved(Step(w, e), m)
      {
        StepConserves(w, e, m);
      }
      StepKeepsTags(w, e);
      StepKeepsHeld(w, e);
      StepKeepsProcessed(w, e);
      hide Conserved, TagsUnique, HeldOutstanding, AckedProcessed, Step;
      RunKeepsInv(Step(w, e), events[1..]);
    }
  }

  // ---------------------------------------------------------------- main theorems

  lemma StartInv()
    ensures Inv(START)
  {
  }

  /** Over every interleaving: published copies are ready, on their way back, outstanding, acknowledged,
      or taken, done or lost by an auto-ack consumer; whatever was acknowledged had been processed without error;
      and no delivery is acknowledged twice. */
  lemma EveryRunIsSafe(events: seq<Event>)
    ensures var w := Run(START, events);
            && (forall m :: Conserved(w, m))
            && (forall d :: d in w.acked ==> d in w.processed)
            && Distinct(w.acked)
  {
    StartInv();
    RunKeepsInv(START, events);
    hide Run, Conserved;
  }

  /** Closing the channels that hold something and letting the broker settle. */
  function Drain(w: World): seq<Event>
    decreases |w.unacked| + |w.taken|, |w.requeuing|
  {
    if w.unacked != [] then [Close(w.unacked[0].channel)] + Drain(Step(w, Close(w.unacked[0].channel)))
    else if w.taken != [] then [Close(w.taken[0].channel)] + Drain(Step(w, Close(w.taken[0].channel)))
    else if w.requeuing != [] then [Settled] + Drain(Step(w, Settled))
    else []
  }

  lemma {:induction false} DrainEmpties(w: World)
    requires Inv(w)
    ensures var w' := Run(w, Drain(w));
            && w'.unacked == [] && w'.requeuing == [] && w'.taken == []
            && w'.published == w.published && w'.acked == w.acked && w'.autoOk == w.autoOk && Inv(w')
            && forall m :: Carried(w'.autoLost, m) == Carried(w.autoLost, m) + Carried(w.taken, m)
    decreases |w.unacked| + |w.taken|, |w.requeuing|
  {
    if w.unacked != [] || w.taken != [] || w.requeuing != [] {
      var e := if w.unacked != [] then Close(w.unacked[0].channel)
               else if w.taken != [] then Close(w.taken[0].channel) else Settled;
      RunKeepsInv(w, [e]);
      RunOne(w, e);
      assert Drain(w) == [e] + Drain(Step(w, e));
      RunCons(w, e, Drain(Step(w, e)));
      assert |Step(w, e).unacked| + |Step(w, e).taken| < |w.unacked| + |w.taken| || e == Settled;
      forall m
        ensures Carried(Step(w, e).autoLost, m) + Carried(Step(w, e).taken, m) ==
                Carried(w.autoLost, m) + Carried(w.taken, m)
      {
        if e.Close? {
          CarriedSplit(w.taken, e.c, m);
          CarriedConcat(w.autoLost, OnChannel(w.taken, e.c), m);
        }
      }
      hide Inv, Occ, Carried, Run, Drain;
      DrainEmpties(Step(w, e));
    }
  }

  lemma RunOne(w: World, e: Event)
    ensures Run(w, [e]) == Step(w, e)
  {
    hide Step;
    assert [e][1..] == [];
  }

  lemma RunCons(w: World, e: Event, more: seq<Event>)
    ensures Run(w, [e] + more) == Run(Step(w, e), more)
  {
    hide Step;
    assert ([e] + more)[1..] == more;
  }

  /** No message is ever stuck or silently gone: from every reachable state the channels can be closed
      so that each published copy is ready again, except those acknowledged after processing and those
      an auto-ack consumer took; of the latter all that it has not got through are lost, and nothing else. */
  lemma OnlyAutoAckLoses(events: seq<Event>, m: Msg)
    ensures var w := Run(START, events);
            Occ(Run(w, Drain(w)).ready, m) + Carried(w.acked, m) + Carried(w.autoOk, m)
            == Occ(w.published, m) - (Carried(w.autoLost, m) + Carried(w.taken, m))
  {
    StartInv();
    RunKeepsInv(START, events);
    var w := Run(START, events);
    DrainEmpties(w);
    assert Conserved(Run(w, Drain(w)), m);
    hide Run, Drain, Inv;
  }

  ghost predicate HoldsNothing(w: World, c: nat) {
    PcOf(w, c).Idle? && (forall d :: d in w.unacked || d in w.taken ==> d.channel != c)
  }

  lemma {:induction false} NothingOn(ds: seq<Delivery>, c: nat)
    requires forall d :: d in ds ==> d.channel != c
    ensures OffChannel(ds, c) == ds && OnChannel(ds, c) == []
  {
    if ds != [] {
      assert ds[0] in ds;
      NothingOn(ds[1..], c);
    }
  }

  lemma {:induction false} OneOn(ds: seq<Delivery>, d: Delivery)
    requires forall e :: e in ds ==> e.channel != d.channel
    ensures OffChannel(ds + [d], d.channel) == ds && OnChannel(ds + [d], d.channel) == [d]
  {
    if ds == [] {
      assert [d][1..] == [];
    } else {
      assert ds[0] in ds;
      assert (ds + [d])[1..] == ds[1..] + [d];
      OneOn(ds[1..], d);
    }
  }

  /** What a failure between delivery and the end of processing costs: the acknowledging consumer's message
      is still the broker's, and back in the queue once its channel is closed; the other's is lost. */
  lemma FailureInBetween(w: World, c: nat)
    requires HoldsNothing(w, c) && w.ready != [] && w.requeuing == []
    ensures var w' := Run(w, [Get(c), Abandon(c), Close(c), Settled]);
            w'.ready == w.ready && w'.unacked == w.unacked && w'.autoLost == w.autoLost
    ensures var w' := Run(w, [AutoGet(c), Abandon(c)]);
            w'.ready == w.ready[1..] && w'.unacked == w.unacked
            && w'.autoLost == w.autoLost + [Delivery(c, w.nextTag, w.ready[0])]
  {
    FailedAfterGet(w, c);
    FailedAfterAutoGet(w, c);
    hide *;
    TwoSteps(w, AutoGet(c), Abandon(c));
    assert [Get(c), Abandon(c), Close(c), Settled] == [Get(c), Abandon(c)] + [Close(c), Settled];
    RunConcat(w, [Get(c), Abandon(c)], [Close(c), Settled]);
    TwoSteps(w, Get(c), Abandon(c));
    TwoSteps(Step(Step(w, Get(c)), Abandon(c)), Close(c), Settled);
  }

  lemma {:induction false} RunConcat(w: World, a: seq<Event>, b: seq<Event>)
    ensures Run(w, a + b) == Run(Run(w, a), b)
    decreases |a|
  {
    hide Step;
    if a == [] {
      assert a + b == b;
    } else {
      RunConcat(Step(w, a[0]), a[1..], b);
      assert (a + b)[1..] == a[1..] + b;
    }
  }

  lemma FailedAfterAutoGet(w: World, c: nat)
    requires PcOf(w, c).Idle? && w.ready != []
    ensures var w' := Step(Step(w, AutoGet(c)), Abandon(c));
            w'.ready == w.ready[1..] && w'.unacked == w.unacked
            && w'.autoLost == w.autoLost + [Delivery(c, w.nextTag, w.ready[0])]
  {
    hide Without, OffChannel, OnChannel, BodySeq;
  }

  lemma FailedAfterGet(w: World, c: nat)
    requires HoldsNothing(w, c) && w.ready != [] && w.requeuing == []
    ensures var w' := Step(Step(Step(Step(w, Get(c)), Abandon(c)), Close(c)), Settled);
            w'.ready == w.ready && w'.unacked == w.unacked && w'.autoLost == w.autoLost
  {
    var d := Delivery(c, w.nextTag, w.ready[0]);
    var w2 := Step(Step(w, Get(c)), Abandon(c));
    NothingOn(w.taken, c);
    OneOn(w.unacked, d);
    BodiesOf(d);
    hide OffChannel, OnChannel, BodySeq, Without;
    assert w2.ready == w.ready[1..] && w2.unacked == w.unacked + [d] && w2.taken == w.taken;
    assert w2.requeuing == [] && w2.autoLost == w.autoLost;
    ClosedAndSettled(w2, c, w.unacked, w.ready[0]);
    assert [w.ready[0]] + w.ready[1..] == w.ready;
  }

  lemma ClosedAndSettled(w: World, c: nat, others: seq<Delivery>, m: Msg)
    requires OffChannel(w.unacked, c) == others && BodySeq(OnChannel(w.unacked, c)) == [m]
    requires OnChannel(w.taken, c) == [] && w.requeuing == []
    ensures var w' := Step(Step(w, Close(c)), Settled);
            w'.ready == [m] + w.ready && w'.unacked == others && w'.autoLost == w.autoLost
  {
    hide OffChannel, OnChannel, BodySeq, Without;
    assert Step(w, Close(c)).requeuing == [m];
  }

  lemma BodiesOf(d: Delivery)
    ensures BodySeq([d]) == [d.body] && BodySeq([]) == []
  {
    assert [d][1..] == [];
  }

  // ---------------------------------------------------------------- process_one and the settle loop

  datatype Outcome = Nothing | Done | Failed

  /** The next tag is a new one. */
  ghost predicate Fresh(w: World) {
    forall d :: d in w.unacked || d in w.taken ==> d.tag != w.nextTag
  }

  lemma {:induction false} WithoutLast(ds: seq<Delivery>, d: Delivery)
    requires forall e :: e in ds ==> e.tag != d.tag
    ensures Without(ds + [d], d) == ds
  {
    if ds == [] {
      assert [d][1..] == [];
    } else {
      assert ds[0] in ds;
      assert (ds + [d])[1..] == ds[1..] + [d];
      WithoutLast(ds[1..], d);
    }
  }

  class Channel {
    const id: nat
    var w: World

    constructor (id: nat, w: World)
      ensures this.id == id && this.w == w
    {
      this.id := id;
      this.w := w;
    }

    /** `AckingConsumer.process_one`: three steps of the state machine. The first message is acknowledged
        where the processor succeeds, and on its way back to the queue where it fails. */
    method ProcessOne(processor: Msg -> bool) returns (r: Outcome)
      requires PcOf(w, id).Idle?
      modifies this
      ensures r.Nothing? <==> old(w).ready == []
      ensures old(w).ready == [] ==> w == old(w)
      ensures old(w).ready != [] ==>
                && (r.Done? <==> processor(old(w).ready[0]))
                && w == Run(old(w), [Get(id), Process(id, processor(old(w).ready[0])), Reply(id)])
      ensures r.Done? ==>
                var d := Delivery(id, old(w).nextTag, old(w).ready[0]);
                w.acked == old(w).acked + [d] && w.requeuing == old(w).requeuing && d in w.processed
      ensures r.Failed? ==>
                w.acked == old(w).acked && w.requeuing == old(w).requeuing + [old(w).ready[0]]
                && w.processed == old(w).processed
      ensures !r.Nothing? ==> w.ready == old(w).ready[1..]
      ensures Fresh(old(w)) ==> w.unacked == old(w).unacked
      ensures PcOf(w, id).Idle? && w.taken == old(w).taken && w.autoOk == old(w).autoOk && w.autoLost == old(w).autoLost
      ensures w.published == old(w).published && forall c :: c != id ==> PcOf(w, c) == PcOf(old(w), c)
    {
      if w.ready == [] {
        return Nothing;
      }
      var body := w.ready[0];
      ThreeSteps(w, Get(id), Process(id, processor(body)), Reply(id));
      hide Without, Run;
      if Fresh(w) {
        WithoutLast(w.unacked, Delivery(id, w.nextTag, body));
      }
      w := Step(w, Get(id));
      var ok := processor(body);
      w := Step(w, Process(id, ok));
      w := Step(w, Reply(id));
      r := if ok then Done else Failed;
    }

    /** `BuggyConsumer.process_one`: two steps; the first takes the message off the broker, and only then
        is it processed. */
    method ProcessOneAuto(processor: Msg -> bool) returns (r: Outcome)
      requires PcOf(w, id).Idle?
      modifies this
      ensures r.Nothing? <==> old(w).ready == []
      ensures old(w).ready == [] ==> w == old(w)
      ensures old(w).ready != [] ==>
                && (r.Done? <==> processor(old(w).ready[0]))
                && w == Run(old(w), [AutoGet(id), AutoDone(id, processor(old(w).ready[0]))])
      ensures var d := Delivery(id, old(w).nextTag, if old(w).ready == [] then 0 else old(w).ready[0]);
              && w.autoOk == old(w).autoOk + (if r.Done? then [d] else [])
              && w.autoLost == old(w).autoLost + (if r.Failed? then [d] else [])
      ensures !r.Nothing? ==> w.ready == old(w).ready[1..]
      ensures Fresh(old(w)) ==> w.taken == old(w).taken
      ensures PcOf(w, id).Idle? && w.acked == old(w).acked && w.requeuing == old(w).requeuing
      ensures w.unacked == old(w).unacked && w.processed == old(w).processed
      ensures w.published == old(w).published && forall c :: c != id ==> PcOf(w, c) == PcOf(old(w), c)
    {
      if w.ready == [] {
        return Nothing;
      }
      var body := w.ready[0];
      TwoSteps(w, AutoGet(id), AutoDone(id, processor(body)));
      hide Without, Run;
      if Fresh(w) {
        WithoutLast(w.taken, Delivery(id, w.nextTag, body));
      }
      w := Step(w, AutoGet(id));
      var ok := processor(body);
      w := Step(w, AutoDone(id, ok));
      r := if ok then Done else Failed;
    }

    /** `remaining_after_failure`: fail one message, then poll until the count is positive or the deadline
        passes. `settles[k]` says whether the broker puts a message back before poll `k`. */
    method RemainingAfterFailure(auto: bool, settles: seq<bool>) returns (count: nat)
      requires PcOf(w, id).Idle? && w.requeuing == [] && settles != []
      modifies this
      ensures count == Observed(|old(w).ready|, auto, settles)
    {
      if auto {
        if w.ready != [] {
          AutoFailedSteps(w, id);
        }
        var r := ProcessOneAuto(_ => false);
      } else {
        if w.ready != [] {
          FailedSteps(w, id);
        }
        var r := ProcessOne(_ => false);
      }
      ghost var n := |old(w).ready|;
      assert |w.requeuing| == if auto || n == 0 then 0 else 1;
      assert |w.ready| == if n == 0 then 0 else n - 1;
      if settles[0] {
        w := Step(w, Settled);
      }
      count := |w.ready|;
      var k := 1;
      while count == 0 && k < |settles|
        invariant 1 <= k <= |settles|
        invariant count == |w.ready|
        invariant |w.ready| + |w.requeuing| == if auto && n > 0 then n - 1 else n
        invariant |w.requeuing| <= 1
        invariant |w.requeuing| == 1 <==> !auto && n > 0 && forall j :: 0 <= j < k ==> !settles[j]
        invariant k > 1 ==> n <= 1
      {
        if settles[k] {
          w := Step(w, Settled);
        }
        count := |w.ready|;
        k := k + 1;
      }
    }
  }

  lemma ThreeSteps(w: World, a: Event, b: Event, c: Event)
    ensures Run(w, [a, b, c]) == Step(Step(Step(w, a), b), c)
  {
    hide Step;
    assert [a, b, c][1..] == [b, c];
    assert [b, c][1..] == [c];
    assert [c][1..] == [];
    assert Run(w, [a, b, c]) == Run(Step(w, a), [b, c]);
    assert Run(Step(w, a), [b, c]) == Run(Step(Step(w, a), b), [c]);
    assert Run(Step(Step(w, a), b), [c]) == Run(Step(Step(Step(w, a), b), c), []);
  }

  lemma TwoSteps(w: World, a: Event, b: Event)
    ensures Run(w, [a, b]) == Step(Step(w, a), b)
  {
    hide *;
    assert [a, b] == [a] + [b];
    RunCons(w, a, [b]);
    RunOne(Step(w, a), b);
  }

  lemma AutoFailedSteps(w: World, c: nat)
    requires PcOf(w, c).Idle? && w.ready != []
    ensures var w' := Run(w, [AutoGet(c), AutoDone(c, false)]);
            w'.ready == w.ready[1..] && w'.requeuing == w.requeuing
  {
    TwoSteps(w, AutoGet(c), AutoDone(c, false));
    hide Run, Without;
  }

  lemma FailedSteps(w: World, c: nat)
    requires PcOf(w, c).Idle? && w.ready != []
    ensures var w' := Run(w, [Get(c), Process(c, false), Reply(c)]);
            w'.ready == w.ready[1..] && w'.requeuing == w.requeuing + [w.ready[0]]
  {
    ThreeSteps(w, Get(c), Process(c, false), Reply(c));
    hide Run, Without;
  }

  /** What the settle loop reports for a queue of `n` messages. */
  function Observed(n: nat, auto: bool, settles: seq<bool>): nat
    requires settles != []
  {
    if n == 0 then 0
    else if auto then n - 1
    else if n == 1 then (if exists k :: 0 <= k < |settles| && settles[k] then 1 else 0)
    else if settles[0] then n else n - 1
  }

  /** The report tells the two consumers apart for every broker that settles before the deadline exactly
      when the queue held one message: with more, the loop does not wait for the returned one. */
  lemma ReportSeparatesIff(n: nat)
    ensures (forall settles: seq<bool> :: (exists k :: 0 <= k < |settles| && settles[k]) ==>
               Observed(n, false, settles) != Observed(n, true, settles)) <==> n == 1
  {
    if n != 1 {
      var late := [false, true];
      assert late[1];
      assert Observed(n, false, late) == Observed(n, true, late);
    }
  }
}
