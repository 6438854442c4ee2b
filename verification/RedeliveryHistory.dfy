/** What became of each delivery, read off the events alone: which were acknowledged, which are still
    outstanding, and which an auto-ack consumer finished or lost. */
module RedeliveryHistory {
  import opened Redelivery

  /** The state after the first `n` events. */
  function At(events: seq<Event>, n: nat): World
    requires n <= |events|
  {
    Run(START, events[..n])
  }

  /** Event `k` hands out `d`, the first ready message, to an idle consumer. */
  ghost predicate HandsOut(events: seq<Event>, k: int, e: Event, d: Delivery) {
    0 <= k < |events| && events[k] == e && Hands(At(events, k), d)
  }

  ghost predicate Hands(w: World, d: Delivery) {
    PcOf(w, d.channel).Idle? && w.ready != [] && d == Delivery(d.channel, w.nextTag, w.ready[0])
  }

  ghost predicate Free(events: seq<Event>, from: int, to: int, stops: set<Event>) {
    forall j :: from <= j < to && 0 <= j < |events| ==> events[j] !in stops
  }

  /** Before event `n` the consumer has fetched `d` and not begun to process it. */
  ghost predicate Fetched(events: seq<Event>, n: int, d: Delivery) {
    exists k :: k < n && FetchedAt(events, k, n, d)
  }

  ghost predicate FetchedAt(events: seq<Event>, k: int, n: int, d: Delivery) {
    var c := d.channel;
    && HandsOut(events, k, Get(c), d)
    && Free(events, k + 1, n, {Process(c, true), Process(c, false), Abandon(c), Close(c)})
  }

  /** Before event `n` the consumer has processed `d`, and not replied. */
  ghost predicate Worked(events: seq<Event>, n: int, d: Delivery, ok: bool) {
    exists j :: j < n && WorkedAt(events, j, n, d, ok)
  }

  ghost predicate WorkedAt(events: seq<Event>, j: int, n: int, d: Delivery, ok: bool) {
    var c := d.channel;
    && 0 <= j < |events| && events[j] == Process(c, ok) && Fetched(events, j, d)
    && Free(events, j + 1, n, {Reply(c), Close(c)})
  }

  /** Before event `n` the auto-ack consumer has taken `d` and not got through it. */
  ghost predicate AtHand(events: seq<Event>, n: int, d: Delivery) {
    exists k :: k < n && AtHandSince(events, k, n, d)
  }

  ghost predicate AtHandSince(events: seq<Event>, k: int, n: int, d: Delivery) {
    var c := d.channel;
    && HandsOut(events, k, AutoGet(c), d)
    && Free(events, k + 1, n, {AutoDone(c, true), AutoDone(c, false), Abandon(c), Close(c)})
  }

  ghost predicate Replied(events: seq<Event>, i: int, d: Delivery, ok: bool) {
    0 <= i < |events| && events[i] == Reply(d.channel) && Worked(events, i, d, ok)
  }

  ghost predicate Ended(events: seq<Event>, i: int, d: Delivery, ends: set<Event>) {
    0 <= i < |events| && events[i] in ends && AtHand(events, i, d)
  }

  ghost predicate Began(events: seq<Event>, j: int, d: Delivery) {
    0 <= j < |events| && events[j] == Process(d.channel, true) && Fetched(events, j, d)
  }

  /** Before event `n` the consumer has been handed `d`, and neither replied nor had its channel closed. */
  ghost predicate Outstanding(events: seq<Event>, n: int, d: Delivery) {
    exists k :: k < n && OpenSince(events, k, n, d)
  }

  ghost predicate OpenSince(events: seq<Event>, k: int, n: int, d: Delivery) {
    && HandsOut(events, k, Get(d.channel), d) && Free(events, k + 1, n, {Close(d.channel)})
    && forall i, ok :: k < i < n ==> !Replied(events, i, d, ok)
  }

  // ---------------------------------------------------------------- one event more

  lemma AtNext(events: seq<Event>, n: nat)
    requires n < |events|
    ensures At(events, n + 1) == Step(At(events, n), events[n])
  {
    hide Step;
    assert events[..n + 1] == events[..n] + [events[n]];
    RunConcat(START, events[..n], [events[n]]);
    RunOne(At(events, n), events[n]);
  }

  lemma FetchedNext(events: seq<Event>, n: nat, d: Delivery)
    requires n < |events|
    ensures var c := d.channel;
            Fetched(events, n + 1, d) <==>
            || HandsOut(events, n, Get(c), d)
            || (Fetched(events, n, d) && events[n] !in {Process(c, true), Process(c, false), Abandon(c), Close(c)})
  {
    hide HandsOut;
    if HandsOut(events, n, Get(d.channel), d) {
      assert FetchedAt(events, n, n + 1, d);
    }
    if Fetched(events, n + 1, d) {
      var k :| k < n + 1 && FetchedAt(events, k, n + 1, d);
      assert k == n || FetchedAt(events, k, n, d);
    }
    if Fetched(events, n, d) {
      var k :| k < n && FetchedAt(events, k, n, d);
      assert FetchedAt(events, k, n + 1, d) <==> !(events[n] in {Process(d.channel, true), Process(d.channel, false),
                                                                 Abandon(d.channel), Close(d.channel)});
    }
  }

  lemma WorkedNext(events: seq<Event>, n: nat, d: Delivery, ok: bool)
    requires n < |events|
    ensures var c := d.channel;
            Worked(events, n + 1, d, ok) <==>
            || (events[n] == Process(c, ok) && Fetched(events, n, d))
            || (Worked(events, n, d, ok) && events[n] !in {Reply(c), Close(c)})
  {
    hide Fetched;
    if events[n] == Process(d.channel, ok) && Fetched(events, n, d) {
      assert WorkedAt(events, n, n + 1, d, ok);
    }
    if Worked(events, n + 1, d, ok) {
      var j :| j < n + 1 && WorkedAt(events, j, n + 1, d, ok);
      assert j == n || WorkedAt(events, j, n, d, ok);
    }
    if Worked(events, n, d, ok) {
      var j :| j < n && WorkedAt(events, j, n, d, ok);
      assert WorkedAt(events, j, n + 1, d, ok) <==> !(events[n] in {Reply(d.channel), Close(d.channel)});
    }
  }

  lemma AtHandNext(events: seq<Event>, n: nat, d: Delivery)
    requires n < |events|
    ensures var c := d.channel;
            AtHand(events, n + 1, d) <==>
            || HandsOut(events, n, AutoGet(c), d)
            || (AtHand(events, n, d) && events[n] !in {AutoDone(c, true), AutoDone(c, false), Abandon(c), Close(c)})
  {
    hide HandsOut;
    if HandsOut(events, n, AutoGet(d.channel), d) {
      assert AtHandSince(events, n, n + 1, d);
    }
    if AtHand(events, n + 1, d) {
      var k :| k < n + 1 && AtHandSince(events, k, n + 1, d);
      assert k == n || AtHandSince(events, k, n, d);
    }
    if AtHand(events, n, d) {
      var k :| k < n && AtHandSince(events, k, n, d);
      var c := d.channel;
      assert AtHandSince(events, k, n + 1, d) <==>
             events[n] !in {AutoDone(c, true), AutoDone(c, false), Abandon(c), Close(c)};
    }
  }

  lemma OutstandingNext(events: seq<Event>, n: nat, d: Delivery)
    requires n < |events|
    ensures Outstanding(events, n + 1, d) <==>
            || HandsOut(events, n, Get(d.channel), d)
            || (Outstanding(events, n, d) && events[n] != Close(d.channel) && forall ok :: !Replied(events, n, d, ok))
  {
    hide HandsOut, Replied;
    if HandsOut(events, n, Get(d.channel), d) {
      assert OpenSince(events, n, n + 1, d);
    }
    if Outstanding(events, n + 1, d) {
      var k :| k < n + 1 && OpenSince(events, k, n + 1, d);
      assert k == n || OpenSince(events, k, n, d);
    }
    if Outstanding(events, n, d) {
      var k :| k < n && OpenSince(events, k, n, d);
      assert OpenSince(events, k, n + 1, d) <==>
             events[n] != Close(d.channel) && forall ok :: !Replied(events, n, d, ok);
    }
  }

  // ---------------------------------------------------------------- where the consumer stands

  lemma StandsNext(w: World, e: Event, d: Delivery, ok: bool)
    ensures var c, pc, pc' := d.channel, PcOf(w, d.channel), PcOf(Step(w, e), d.channel);
            && (pc' == Got(d) <==>
                || (e == Get(c) && Hands(w, d))
                || (pc == Got(d) && e !in {Process(c, true), Process(c, false), Abandon(c), Close(c)}))
            && (pc' == Processed(d, ok) <==>
                || (e == Process(c, ok) && pc == Got(d))
                || (pc == Processed(d, ok) && e !in {Reply(c), Close(c)}))
            && (pc' == Taken(d) <==>
                || (e == AutoGet(c) && Hands(w, d))
                || (pc == Taken(d) && e !in {AutoDone(c, true), AutoDone(c, false), Abandon(c), Close(c)}))
  {
    hide Without, OffChannel, OnChannel, BodySeq;
  }

  /** Where a consumer stands follows from the events since it was handed its delivery. */
  lemma {:induction false} StandsIff(events: seq<Event>, n: nat, d: Delivery, ok: bool)
    requires n <= |events|
    ensures var pc := PcOf(At(events, n), d.channel);
            && (pc == Got(d) <==> Fetched(events, n, d))
            && (pc == Processed(d, ok) <==> Worked(events, n, d, ok))
            && (pc == Taken(d) <==> AtHand(events, n, d))
  {
    if n == 0 {
      assert events[..0] == [];
    } else {
      StandsIff(events, n - 1, d, ok);
      AtNext(events, n - 1);
      StandsNext(At(events, n - 1), events[n - 1], d, ok);
      FetchedNext(events, n - 1, d);
      WorkedNext(events, n - 1, d, ok);
      AtHandNext(events, n - 1, d);
      hide At, Step, Fetched, Worked, AtHand, PcOf;
    }
  }

  // ---------------------------------------------------------------- what became of a delivery

  ghost predicate Books(w: World) {
    TagsUnique(w) && HeldOutstanding(w) && forall d :: d in w.taken ==> PcOf(w, d.channel) == Taken(d)
  }

  lemma AtBooks(events: seq<Event>, n: nat)
    requires n <= |events|
    ensures Books(At(events, n))
  {
    if n == 0 {
      assert events[..0] == [];
    } else {
      AtBooks(events, n - 1);
      AtNext(events, n - 1);
      var w := At(events, n - 1);
      StepKeepsTags(w, events[n - 1]);
      StepKeepsHeld(w, events[n - 1]);
      hide At, TagsUnique, HeldOutstanding;
      StepKeepsTaken(w, events[n - 1]);
    }
  }

  lemma StepKeepsTaken(w: World, e: Event)
    requires Books(w)
    ensures forall d :: d in Step(w, e).taken ==> PcOf(Step(w, e), d.channel) == Taken(d)
  {
    forall d | d in Step(w, e).taken
      ensures PcOf(Step(w, e), d.channel) == Taken(d)
    {
      TakenStays(w, e, d);
    }
    hide Step;
  }

  lemma TakenStays(w: World, e: Event, d: Delivery)
    requires Books(w) && d in Step(w, e).taken
    ensures PcOf(Step(w, e), d.channel) == Taken(d)
  {
    OffChannelKeepsTaken(w, e);
    hide Without, OffChannel, OnChannel, BodySeq, TagsUnique, HeldOutstanding;
    assert d in w.taken ==> PcOf(w, d.channel) == Taken(d);
  }

  lemma OffChannelKeepsTaken(w: World, e: Event)
    requires Books(w)
    ensures e.Close? ==> forall d :: d in OffChannel(w.taken, e.c) <==> d in w.taken && d.channel != e.c
    ensures (e.AutoDone? || e.Abandon?) && PcOf(w, e.c).Taken? ==>
              forall d :: d in Without(w.taken, PcOf(w, e.c).d) <==> d in w.taken && d != PcOf(w, e.c).d
    ensures (e.AutoDone? || e.Abandon?) && PcOf(w, e.c).Taken? ==> PcOf(w, e.c).d.channel == e.c
  {
    if e.Close? {
      OffChannelKeeps(w.taken, e.c);
    } else if (e.AutoDone? || e.Abandon?) && PcOf(w, e.c).Taken? {
      WithoutKeeps(w.taken, PcOf(w, e.c).d);
    }
  }

  lemma {:induction false} OnChannelIs(ds: seq<Delivery>, c: nat)
    ensures forall e :: e in OnChannel(ds, c) <==> e in ds && e.channel == c
  {
    if ds != [] {
      OnChannelIs(ds[1..], c);
      assert forall e :: e in ds <==> e == ds[0] || e in ds[1..];
      assert forall e :: e in OnChannel(ds, c) <==> (ds[0].channel == c && e == ds[0]) || e in OnChannel(ds[1..], c);
    }
  }

  lemma AckedNext(w: World, e: Event, d: Delivery)
    requires Books(w)
    ensures var c, pc, w' := d.channel, PcOf(w, d.channel), Step(w, e);
            && (d in w'.acked <==> d in w.acked || (e == Reply(c) && pc == Processed(d, true)))
            && (d in w'.processed <==> d in w.processed || (e == Process(c, true) && pc == Got(d)))
  {
    hide Without, OffChannel, OnChannel, BodySeq, TagsUnique;
  }

  lemma EndedNext(w: World, e: Event, d: Delivery)
    requires Books(w)
    ensures var c, pc, w' := d.channel, PcOf(w, d.channel), Step(w, e);
            && (d in w'.autoOk <==> d in w.autoOk || (e == AutoDone(c, true) && pc == Taken(d)))
            && (d in w'.autoLost <==>
                d in w.autoLost || (e in {AutoDone(c, false), Abandon(c), Close(c)} && pc == Taken(d)))
  {
    if e.Close? {
      OnChannelIs(w.taken, e.c);
    }
    hide Without, OffChannel, OnChannel, BodySeq, TagsUnique;
  }

  lemma UnackedNext(w: World, e: Event, d: Delivery)
    requires Books(w)
    ensures var c, pc := d.channel, PcOf(w, d.channel);
            d in Step(w, e).unacked <==>
            || (e == Get(c) && Hands(w, d))
            || (d in w.unacked && e != Close(c)
                && !(e == Reply(c) && (pc == Processed(d, true) || pc == Processed(d, false))))
  {
    if e.Close? {
      OffChannelKeeps(w.unacked, e.c);
    } else if e.Reply? && PcOf(w, e.c).Processed? {
      WithoutKeeps(w.unacked, PcOf(w, e.c).d);
    }
    hide Without, OffChannel, OnChannel, BodySeq, Distinct;
  }

  ghost predicate Acknowledged(events: seq<Event>, n: int, d: Delivery) {
    exists i :: i < n && Replied(events, i, d, true)
  }

  ghost predicate Succeeded(events: seq<Event>, n: int, d: Delivery) {
    exists j :: j < n && Began(events, j, d)
  }

  ghost predicate EndedBy(events: seq<Event>, n: int, d: Delivery, ends: set<Event>) {
    exists i :: i < n && Ended(events, i, d, ends)
  }

  lemma EntriesNow(events: seq<Event>, n: nat, d: Delivery)
    requires n < |events|
    ensures Acknowledged(events, n + 1, d) <==>
            Acknowledged(events, n, d) || (events[n] == Reply(d.channel) && Worked(events, n, d, true))
    ensures Succeeded(events, n + 1, d) <==>
            Succeeded(events, n, d) || (events[n] == Process(d.channel, true) && Fetched(events, n, d))
  {
    hide Worked, Fetched;
    assert Replied(events, n, d, true) <==> events[n] == Reply(d.channel) && Worked(events, n, d, true);
    assert Began(events, n, d) <==> events[n] == Process(d.channel, true) && Fetched(events, n, d);
    hide Replied, Began;
  }

  lemma EndedNow(events: seq<Event>, n: nat, d: Delivery, ends: set<Event>)
    requires n < |events|
    ensures EndedBy(events, n + 1, d, ends) <==>
            EndedBy(events, n, d, ends) || (events[n] in ends && AtHand(events, n, d))
  {
    hide AtHand;
    assert Ended(events, n, d, ends) <==> events[n] in ends && AtHand(events, n, d);
    hide Ended;
  }

  /** Exactly the deliveries replied to after successful processing are acknowledged, and those an auto-ack
      consumer took are done or lost exactly by how their processing ended. */
  lemma {:induction false} EntriesAt(events: seq<Event>, n: nat, d: Delivery)
    requires n <= |events|
    ensures var w := At(events, n);
            var c := d.channel;
            && (d in w.acked <==> Acknowledged(events, n, d))
            && (d in w.processed <==> Succeeded(events, n, d))
            && (d in w.autoOk <==> EndedBy(events, n, d, {AutoDone(c, true)}))
            && (d in w.autoLost <==> EndedBy(events, n, d, {AutoDone(c, false), Abandon(c), Close(c)}))
  {
    if n == 0 {
      assert events[..0] == [];
    } else {
      var m := n - 1;
      EntriesAt(events, m, d);
      AtNext(events, m);
      AtBooks(events, m);
      StandsIff(events, m, d, true);
      AckedNext(At(events, m), events[m], d);
      EndedNext(At(events, m), events[m], d);
      EntriesNow(events, m, d);
      EndedNow(events, m, d, {AutoDone(d.channel, true)});
      EndedNow(events, m, d, {AutoDone(d.channel, false), Abandon(d.channel), Close(d.channel)});
      hide *;
    }
  }

  lemma {:induction false} UnackedAt(events: seq<Event>, n: nat, d: Delivery)
    requires n <= |events|
    ensures d in At(events, n).unacked <==> Outstanding(events, n, d)
  {
    if n == 0 {
      assert events[..0] == [];
    } else {
      var m := n - 1;
      UnackedAt(events, m, d);
      AtNext(events, m);
      AtBooks(events, m);
      StandsIff(events, m, d, true);
      StandsIff(events, m, d, false);
      UnackedNext(At(events, m), events[m], d);
      assert forall ok :: Replied(events, m, d, ok) <==> events[m] == Reply(d.channel) && Worked(events, m, d, ok);
      assert HandsOut(events, m, Get(d.channel), d) <==> events[m] == Get(d.channel) && Hands(At(events, m), d);
      hide At, Step, Worked, PcOf, Replied, Books, Fetched, AtHand, HandsOut;
      OutstandingNext(events, m, d);
    }
  }

  // ---------------------------------------------------------------- main theorems

  lemma WhatBecame(events: seq<Event>, d: Delivery)
    ensures var w, n, c := Run(START, events), |events|, d.channel;
            && (d in w.acked <==> Acknowledged(events, n, d))
            && (d in w.processed <==> Succeeded(events, n, d))
            && (d in w.autoOk <==> EndedBy(events, n, d, {AutoDone(c, true)}))
            && (d in w.autoLost <==> EndedBy(events, n, d, {AutoDone(c, false), Abandon(c), Close(c)}))
            && (d in w.unacked <==> Outstanding(events, n, d))
            && (d in w.taken <==> AtHand(events, n, d))
  {
    var n := |events|;
    assert events[..n] == events;
    EntriesAt(events, n, d);
    UnackedAt(events, n, d);
    StandsIff(events, n, d, true);
    AtBooks(events, n);
    hide Run, Acknowledged, Succeeded, EndedBy, Outstanding, AtHand, TagsUnique, Fetched, Worked;
  }

  /** The queue's order: until the broker puts a message back, tag `t` delivers the message published as
      number `t`, and what is ready is what was published after the last delivery. */
  ghost predicate InOrder(w: World) {
    && w.nextTag <= |w.published| && w.ready == w.published[w.nextTag..]
    && (forall d :: Known(w, d) ==> d.tag < w.nextTag && d.body == w.published[d.tag])
  }

  ghost predicate Known(w: World, d: Delivery) {
    || d in w.unacked || d in w.taken || d in w.acked || d in w.autoOk || d in w.autoLost
    || exists c :: !PcOf(w, c).Idle? && PcOf(w, c).d == d
  }

  lemma {:induction false} OnlyFewer(ds: seq<Delivery>, x: Delivery, c: nat)
    ensures forall d :: d in Without(ds, x) ==> d in ds
    ensures forall d :: d in OffChannel(ds, c) || d in OnChannel(ds, c) ==> d in ds
  {
    if ds != [] {
      OnlyFewer(ds[1..], x, c);
      assert forall d :: d in ds <==> d == ds[0] || d in ds[1..];
      OffChannelStep(ds, c);
      hide OffChannel;
      assert forall d :: d in Without(ds, x) ==> d == ds[0] || d in ds[1..];
      assert forall d :: d in OnChannel(ds, c) ==> d == ds[0] || d in OnChannel(ds[1..], c);
    }
  }

  lemma HoldsNext(w: World, e: Event, c: nat)
    ensures var pc, pc' := PcOf(w, c), PcOf(Step(w, e), c);
            !pc'.Idle? ==>
              || (!pc.Idle? && pc.d == pc'.d)
              || (pc'.d.channel == c && (e == Get(c) || e == AutoGet(c)) && Hands(w, pc'.d))
  {
    hide Without, OffChannel, OnChannel, BodySeq;
  }

  lemma ListedNext(w: World, e: Event, d: Delivery)
    requires var w' := Step(w, e);
             d in w'.unacked || d in w'.taken || d in w'.acked || d in w'.autoOk || d in w'.autoLost
    ensures Known(w, d) || ((e == Get(d.channel) || e == AutoGet(d.channel)) && Hands(w, d))
  {
    match e {
      case Reply(c) => if PcOf(w, c).Processed? { OnlyFewer(w.unacked, PcOf(w, c).d, c); }
      case Abandon(c) => if PcOf(w, c).Taken? { OnlyFewer(w.taken, PcOf(w, c).d, c); }
      case AutoDone(c, _) => if PcOf(w, c).Taken? { OnlyFewer(w.taken, PcOf(w, c).d, c); }
      case Close(c) =>
        OnlyFewer(w.unacked, d, c);
        OnlyFewer(w.taken, d, c);
      case _ =>
    }
    hide Without, OffChannel, OnChannel, BodySeq;
  }

  lemma KnownNext(w: World, e: Event, d: Delivery)
    requires Known(Step(w, e), d)
    ensures Known(w, d) || ((e == Get(d.channel) || e == AutoGet(d.channel)) && Hands(w, d))
  {
    var w' := Step(w, e);
    hide Step, Hands, PcOf;
    if d in w'.unacked || d in w'.taken || d in w'.acked || d in w'.autoOk || d in w'.autoLost {
      ListedNext(w, e, d);
    } else {
      var c :| !PcOf(w', c).Idle? && PcOf(w', c).d == d;
      HoldsNext(w, e, c);
    }
  }

  lemma StepKeepsOrder(w: World, e: Event)
    requires InOrder(w) && e != Settled
    ensures InOrder(Step(w, e))
  {
    var w' := Step(w, e);
    forall d | Known(w', d)
      ensures Known(w, d) || ((e == Get(d.channel) || e == AutoGet(d.channel)) && Hands(w, d))
    {
      KnownNext(w, e, d);
    }
    hide Known, Without, OffChannel, OnChannel, BodySeq;
  }

  lemma {:induction false} DeliveredInOrder(events: seq<Event>, n: nat)
    requires n <= |events| && Settled !in events
    ensures InOrder(At(events, n))
  {
    if n == 0 {
      assert events[..0] == [];
    } else {
      DeliveredInOrder(events, n - 1);
      AtNext(events, n - 1);
      StepKeepsOrder(At(events, n - 1), events[n - 1]);
      hide At, InOrder, Step;
    }
  }

  function Publications(events: seq<Event>): seq<Msg> {
    if events == [] then []
    else (match events[0] case Publish(m) => [m] case _ => []) + Publications(events[1..])
  }

  /** What counts as published is exactly what the publish events said, in their order. */
  lemma {:induction false} PublishedIs(w: World, events: seq<Event>)
    ensures Run(w, events).published == w.published + Publications(events)
    decreases |events|
  {
    hide Step;
    if events != [] {
      PublishedNext(w, events[0]);
      PublishedIs(Step(w, events[0]), events[1..]);
    }
  }

  lemma PublishedNext(w: World, e: Event)
    ensures Step(w, e).published == w.published + match e case Publish(m) => [m] case _ => []
  {
    hide Without, OffChannel, OnChannel, BodySeq;
  }
}
