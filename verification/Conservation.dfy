// No message is lost, invented, duplicated or reordered between a FIX session and the book or trade worker.
module Conservation {
  import opened Pipeline

  /** The envelopes of one session, in order. */
  function Of(session: Session, es: seq<Envelope>): (r: seq<Envelope>)
    decreases |es|
  {
    if es == [] then []
    else if es[0].session == session then [es[0]] + Of(session, es[1..])
    else Of(session, es[1..])
  }

  lemma {:induction false} OfConcat(session: Session, xs: seq<Envelope>, ys: seq<Envelope>)
    ensures Of(session, xs + ys) == Of(session, xs) + Of(session, ys)
    decreases |xs|
  {
    if xs == [] {
      assert xs + ys == ys;
    } else {
      assert (xs + ys)[1..] == xs[1..] + ys;
      OfConcat(session, xs[1..], ys);
    }
  }

  lemma {:induction false} OfEmpty(session: Session, es: seq<Envelope>)
    ensures Of(session, es) == [] <==> forall e :: e in es ==> e.session != session
    decreases |es|
  {
    if es != [] {
      OfEmpty(session, es[1..]);
      assert es[0] in es;
      assert forall e :: e in es ==> e == es[0] || e in es[1..];
    }
  }

  /** Taking the oldest envelope of its session out of a queue. */
  lemma TakeOldest(session: Session, q: seq<Envelope>, k: nat)
    requires OldestOfSession(q, k)
    ensures Of(session, q) == Of(session, [q[k]]) + Of(session, q[..k] + q[k + 1..])
  {
    var a, b := q[..k], q[k + 1..];
    assert q == a + ([q[k]] + b);
    OfConcat(session, a, [q[k]] + b);
    OfConcat(session, [q[k]], b);
    OfConcat(session, a, b);
    OfEmpty(q[k].session, a);
  }

  /** What the message handlers enqueue, in order of arrival. */
  function Routed(es: seq<Envelope>, toOrders: bool): (r: seq<Envelope>)
    decreases |es|
  {
    if es == [] then []
    else
      var e := es[|es| - 1];
      Routed(es[..|es| - 1], toOrders) + (if (if toOrders then ToOrders(e) else ToTrades(e)) then [e] else [])
  }

  /** Per session, what was routed to the order queue is what the worker took followed by what is still
      queued; for the trade queue, which has one producer, the same holds outright. */
  ghost predicate Conserved(s: State) {
    && (forall session :: Of(session, Routed(s.received, true)) == Of(session, s.taken) + Of(session, s.orders))
    && Routed(s.received, false) == s.tradesTaken + s.trades
    && (forall e :: e in s.taken || e in s.orders ==> ToOrders(e))
  }

  lemma ReceiveConserves(u: Setup, s: State, e: Envelope)
    requires Safe(u, s) && Conserved(s)
    ensures Conserved(Next(u, s, Receive(e)))
  {
    var t := Next(u, s, Receive(e));
    assert t.received[..|t.received| - 1] == s.received;
    var o := if ToOrders(e) then [e] else [];
    forall session
      ensures Of(session, Routed(t.received, true)) == Of(session, t.taken) + Of(session, t.orders)
    {
      OfConcat(session, Routed(s.received, true), o);
      OfConcat(session, s.orders, o);
    }
  }

  lemma MoveOldest(session: Session, taken: seq<Envelope>, q: seq<Envelope>, k: nat)
    requires OldestOfSession(q, k)
    ensures Of(session, taken + [q[k]]) + Of(session, q[..k] + q[k + 1..]) == Of(session, taken) + Of(session, q)
  {
    TakeOldest(session, q, k);
    OfConcat(session, taken, [q[k]]);
  }

  lemma DequeueConserves(u: Setup, s: State, k: nat)
    requires Safe(u, s) && Conserved(s) && Enabled(s, Dequeue(k))
    ensures Conserved(Next(u, s, Dequeue(k)))
  {
    var t := Next(u, s, Dequeue(k));
    forall session
      ensures Of(session, Routed(t.received, true)) == Of(session, t.taken) + Of(session, t.orders)
    {
      MoveOldest(session, s.taken, s.orders, k);
    }
    assert s.orders[k] in s.orders;
  }

  lemma NextConserves(u: Setup, s: State, ev: Event)
    requires Safe(u, s) && Conserved(s) && Enabled(s, ev)
    ensures Conserved(Next(u, s, ev))
  {
    match ev
    case Receive(e) => ReceiveConserves(u, s, e);
    case Dequeue(k) => DequeueConserves(u, s, k);
    case _ =>
  }

  /** In every reachable state nothing is lost, doubled or reordered, per producer. */
  lemma {:induction false} RunConserves(u: Setup, evs: seq<Event>)
    ensures Conserved(Run(u, evs))
    decreases |evs|
  {
    if evs != [] {
      var s := Run(u, evs[..|evs| - 1]);
      RunConserves(u, evs[..|evs| - 1]);
      if Enabled(s, evs[|evs| - 1]) {
        NextConserves(u, s, evs[|evs| - 1]);
      }
    }
  }

  lemma {:induction false} OfOnly(session: Session, es: seq<Envelope>)
    requires forall e :: e in es ==> e.session == session
    ensures Of(session, es) == es
    decreases |es|
  {
    if es != [] {
      assert es[0] in es;
      OfOnly(session, es[1..]);
    }
  }

  lemma {:induction false} RoutedIn(es: seq<Envelope>, toOrders: bool)
    ensures forall e :: e in Routed(es, toOrders) ==> e in es && if toOrders then ToOrders(e) else ToTrades(e)
    decreases |es|
  {
    if es != [] {
      RoutedIn(es[..|es| - 1], toOrders);
    }
  }

  lemma OnlySession(session: Session, es: seq<Envelope>)
    requires forall other :: other != session ==> Of(other, es) == []
    ensures Of(session, es) == es
  {
    forall e | e in es
      ensures e.session == session
    {
      OfEmpty(e.session, es);
    }
    OfOnly(session, es);
  }

  // ---------------------------------------------------------------------------
  // In terms of sessions and message kinds
  // ---------------------------------------------------------------------------

  function SnapshotsOf(session: Session, es: seq<Envelope>): (r: seq<Envelope>)
    decreases |es|
  {
    if es == [] then []
    else
      var e := es[|es| - 1];
      SnapshotsOf(session, es[..|es| - 1]) + (if e.session == session && e.msg.Snapshot? then [e] else [])
  }

  function IncrementsOf(session: Session, es: seq<Envelope>): (r: seq<Envelope>)
    decreases |es|
  {
    if es == [] then []
    else
      var e := es[|es| - 1];
      IncrementsOf(session, es[..|es| - 1]) + (if e.session == session && e.msg.Increment? then [e] else [])
  }

  lemma OfLast(session: Session, es: seq<Envelope>)
    requires es != []
    ensures Of(session, es)
            == Of(session, es[..|es| - 1]) + (if es[|es| - 1].session == session then [es[|es| - 1]] else [])
  {
    var k := |es| - 1;
    assert es == es[..k] + [es[k]];
    OfConcat(session, es[..k], [es[k]]);
    OfSingle(session, es[k]);
  }

  lemma OfSingle(session: Session, e: Envelope)
    ensures Of(session, [e]) == if e.session == session then [e] else []
  {
    assert [e][1..] == [] && [e] + [] == [e];
  }

  /** What is routed to the order queue: everything from PX, and the snapshots of any other session. */
  lemma {:induction false} OrdersRouted(session: Session, es: seq<Envelope>)
    ensures Of(session, Routed(es, true)) == if session == PX then Of(PX, es) else SnapshotsOf(session, es)
    decreases |es|
  {
    if es != [] {
      var init, e := es[..|es| - 1], es[|es| - 1];
      OrdersRouted(session, init);
      OfLast(PX, es);
      OfConcat(session, Routed(init, true), if ToOrders(e) then [e] else []);
      OfSingle(session, e);
    }
  }

  lemma {:induction false} TradesRouted(es: seq<Envelope>)
    ensures Routed(es, false) == IncrementsOf(TX, es)
    decreases |es|
  {
    if es != [] {
      TradesRouted(es[..|es| - 1]);
    }
  }

  /** In every run: all messages of PX, and all snapshots of any other session, are taken for the book or still
      queued for it, in order of arrival; all increments of TX, and nothing else, go to the trades in order. */
  lemma EverythingArrivesOnce(u: Setup, evs: seq<Event>, other: Session)
    requires other != PX
    ensures var s := Run(u, evs);
            && Of(PX, s.received) == Of(PX, s.taken) + Of(PX, s.orders)
            && SnapshotsOf(other, s.received) == Of(other, s.taken) + Of(other, s.orders)
            && IncrementsOf(TX, s.received) == s.tradesTaken + s.trades
  {
    var s := Run(u, evs);
    RunConserves(u, evs);
    OrdersRouted(PX, s.received);
    OrdersRouted(other, s.received);
    TradesRouted(s.received);
  }

  /** When only PX feeds the order queue, the worker takes its messages of both kinds in the order in
      which they arrived: all but the last are applied, the last is in flight or applied. */
  lemma PxStreamConserved(u: Setup, evs: seq<Event>)
    requires forall e :: e in Run(u, evs).received && e.msg.Snapshot? ==> e.session == PX
    ensures var s := Run(u, evs);
            && Of(PX, s.received) == Routed(s.received, true) == s.taken + s.orders
            && s.completed <= |s.taken| <= s.completed + 1
  {
    var s := Run(u, evs);
    RunConserves(u, evs);
    RoutedIn(s.received, true);
    var r := Routed(s.received, true);
    OfOnly(PX, r);
    OrdersRouted(PX, s.received);
    forall other: Session | other != PX
      ensures Of(other, s.taken) == [] && Of(other, s.orders) == []
    {
      OfEmpty(other, r);
    }
    OnlySession(PX, s.taken);
    OnlySession(PX, s.orders);
  }

  /** An increment of the TX session never reaches the book, and only such increments reach the trades. */
  lemma TradeMessagesStayApart(u: Setup, evs: seq<Event>, e: Envelope)
    ensures e in Run(u, evs).taken || e in Run(u, evs).orders ==> e.msg.Snapshot? || e.session == PX
    ensures e in Run(u, evs).tradesTaken || e in Run(u, evs).trades ==> e.msg.Increment? && e.session == TX
  {
    var s := Run(u, evs);
    RunConserves(u, evs);
    RoutedIn(s.received, false);
    if e in s.tradesTaken || e in s.trades {
      assert e in s.tradesTaken + s.trades;
    }
  }

  /** A worker that returned after a stop request has applied everything it took: what arrived for the book is,
      per session, what was applied followed by what is still queued. */
  lemma StopLosesNothing(u: Setup, evs: seq<Event>, session: Session)
    requires Run(u, evs).pc.Stopped?
    ensures var s := Run(u, evs);
            && s.book == BookAfter(u, s.taken, s.completed)
            && (if session == PX then Of(PX, s.received) else SnapshotsOf(session, s.received))
               == Of(session, Routed(s.received, true))
               == Of(session, s.taken[..s.completed]) + Of(session, s.orders)
  {
    var s := Run(u, evs);
    RunConserves(u, evs);
    OrdersRouted(session, s.received);
    assert s.taken[..s.completed] == s.taken;
  }
}
