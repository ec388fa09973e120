// What the pipeline can always do, and what it must stop doing: stop requests are seen, queued messages can be
// taken, renders can be completed.
module Progress {
  import opened Book
  import opened Pipeline
  import opened Refinement
  import opened Rows

  // ---------------------------------------------------------------------------
  // What comes in from outside
  // ---------------------------------------------------------------------------

  /** The messages that the FIX threads received, in order. */
  function Arrivals(evs: seq<Event>): (es: seq<Envelope>)
    decreases |evs|
  {
    if evs == [] then []
    else Arrivals(evs[..|evs| - 1]) + (if evs[|evs| - 1].Receive? then [evs[|evs| - 1].e] else [])
  }

  lemma NextArrives(u: Setup, s: State, ev: Event)
    requires Shape(s) && Enabled(s, ev)
    ensures Next(u, s, ev).received == s.received + (if ev.Receive? then [ev.e] else [])
    ensures Next(u, s, ev).stop <==> s.stop || ev.RequestStop?
  {
    assert s.received + [] == s.received;
  }

  lemma OneArrives(u: Setup, s: State, ev: Event)
    requires Safe(u, s)
    ensures Then(u, s, ev).received == s.received + (if ev.Receive? then [ev.e] else [])
    ensures Then(u, s, ev).stop <==> s.stop || ev.RequestStop?
  {
    if Enabled(s, ev) {
      NextArrives(u, s, ev);
    } else {
      assert s.received + [] == s.received;
    }
  }

  lemma LastIn(evs: seq<Event>, x: Event)
    requires evs != []
    ensures x in evs <==> x in evs[..|evs| - 1] || evs[|evs| - 1] == x
  {
    assert evs == evs[..|evs| - 1] + [evs[|evs| - 1]];
  }

  /** Every message that arrives is received, and the stop flag is up exactly once a stop was requested. */
  lemma {:induction false} EverythingArrives(u: Setup, evs: seq<Event>)
    ensures Run(u, evs).received == Arrivals(evs)
    ensures Run(u, evs).stop <==> RequestStop in evs
    decreases |evs|
  {
    if evs != [] {
      var init := evs[..|evs| - 1];
      EverythingArrives(u, init);
      LastIn(evs, RequestStop);
      OneArrives(u, Run(u, init), evs[|evs| - 1]);
    }
  }

  // ---------------------------------------------------------------------------
  // Stopping
  // ---------------------------------------------------------------------------

  predicate BetweenMessages(s: State) {
    s.pc.LoopTop? || s.pc.Polling? || s.pc.Missed?
  }

  /** How many messages the worker may still take once the stop flag is up. */
  function StillToTake(s: State): (n: nat) {
    if s.pc.Polling? then 1 else 0
  }

  lemma NextAfterStop(u: Setup, s: State, ev: Event)
    requires Shape(s) && Enabled(s, ev) && s.stop
    ensures var t := Next(u, s, ev);
            t.stop && |t.taken| + StillToTake(t) <= |s.taken| + StillToTake(s)
  {
  }

  lemma StepAfterStop(u: Setup, s: State, ev: Event)
    requires Safe(u, s) && s.stop
    ensures var t := Then(u, s, ev);
            t.stop && |t.taken| + StillToTake(t) <= |s.taken| + StillToTake(s)
  {
    if Enabled(s, ev) {
      NextAfterStop(u, s, ev);
    }
  }

  lemma {:induction false} RunAfterStop(u: Setup, s: State, more: seq<Event>)
    requires Safe(u, s) && s.stop
    ensures var t := RunFrom(u, s, more);
            t.stop && |t.taken| + StillToTake(t) <= |s.taken| + StillToTake(s)
    decreases |more|
  {
    if more != [] {
      StepAfterStop(u, s, more[0]);
      RunAfterStop(u, Then(u, s, more[0]), more[1..]);
    }
  }

  /** Once a stop was requested, whatever happens the worker takes at most one more message, and none unless it
      was about to look into the queue. */
  lemma AtMostOneMore(u: Setup, evs: seq<Event>, more: seq<Event>)
    requires Run(u, evs).stop
    ensures |Run(u, evs + more).taken| <= |Run(u, evs).taken| + (if Run(u, evs).pc.Polling? then 1 else 0)
  {
    RunConcat(u, evs, more);
    RunAfterStop(u, Run(u, evs), more);
  }

  /** A stop requested before the worker starts keeps it from taking anything. */
  lemma StopBeforeStart(u: Setup, more: seq<Event>)
    ensures Run(u, [RequestStop] + more).taken == []
  {
    var first := [RequestStop];
    assert first[..0] == [];
    assert Run(u, first) == Then(u, Initial(u), RequestStop);
    AtMostOneMore(u, first, more);
  }

  /** The state of the worker after a stop request and before it returns. */
  ghost predicate Returned(s: State, t: State) {
    && t.pc.Stopped? && t.taken == s.taken && t.completed == s.completed && t.book == s.book
    && t.orders == s.orders
  }

  lemma OneStep(u: Setup, s: State, x: Event)
    requires Safe(u, s)
    ensures RunFrom(u, s, [x]) == Then(u, s, x)
  {
    assert [x][1..] == [];
    assert RunFrom(u, Then(u, s, x), []) == Then(u, s, x);
  }

  lemma TwoSteps(u: Setup, s: State, x: Event, y: Event)
    requires Safe(u, s)
    ensures RunFrom(u, s, [x, y]) == Then(u, Then(u, s, x), y)
  {
    assert [x] + [y] == [x, y];
    FirstThen(u, s, x, [y]);
    OneStep(u, Then(u, s, x), y);
  }

  lemma TestSeesStop(u: Setup, s: State)
    requires Safe(u, s) && s.stop && (s.pc.LoopTop? || s.pc.Missed?)
    ensures Returned(s, Then(u, s, CheckStop))
  {
  }

  lemma EmptyPoll(u: Setup, s: State)
    requires Safe(u, s) && s.pc.Polling?
    ensures Then(u, s, Miss) == s.(pc := Missed)
  {
  }

  lemma StopFrom(u: Setup, s: State)
    requires Safe(u, s) && s.stop && BetweenMessages(s)
    ensures Returned(s, RunFrom(u, s, if s.pc.Polling? then [Miss, CheckStop] else [CheckStop]))
  {
    if s.pc.Polling? {
      TwoSteps(u, s, Miss, CheckStop);
      EmptyPoll(u, s);
      TestSeesStop(u, Then(u, s, Miss));
    } else {
      OneStep(u, s, CheckStop);
      TestSeesStop(u, s);
    }
  }

  /** Between two messages a stop request is seen at the next test, after an empty poll if one is under way:
      the worker returns without taking anything. */
  lemma StopIsSeen(u: Setup, evs: seq<Event>)
    requires Run(u, evs).stop && BetweenMessages(Run(u, evs))
    ensures var more := if Run(u, evs).pc.Polling? then [Miss, CheckStop] else [CheckStop];
            Returned(Run(u, evs), Run(u, evs + more))
  {
    var more := if Run(u, evs).pc.Polling? then [Miss, CheckStop] else [CheckStop];
    StopFrom(u, Run(u, evs));
    RunConcat(u, evs, more);
  }

  /** The worker finishes the message in its hands. */
  lemma FinishMessage(u: Setup, s: State) returns (more: seq<Event>)
    requires Safe(u, s) && (s.pc.Visiting? || s.pc.Inside?)
    ensures Settled(RunFrom(u, s, more)) && SameWork(s, RunFrom(u, s, more))
  {
    if s.pc.Inside? {
      more := MessageCanFinish(u, s);
    } else {
      more := WaitingCanFinish(u, s);
    }
  }

  /** From every state with a stop request the worker can come to its end, with the messages it has taken. */
  lemma WorkerCanEnd(u: Setup, evs: seq<Event>) returns (more: seq<Event>)
    requires Run(u, evs).stop
    ensures var t := Run(u, evs + more);
            (t.pc.Stopped? || t.pc.Dead?) && t.taken == Run(u, evs).taken
  {
    var s := Run(u, evs);
    more := [];
    if s.pc.Visiting? || s.pc.Inside? {
      more := FinishMessage(u, s);
    }
    var mid := RunFrom(u, s, more);
    if BetweenMessages(mid) {
      var rest := if mid.pc.Polling? then [Miss, CheckStop] else [CheckStop];
      StopFrom(u, mid);
      FromConcat(u, s, more, rest);
      more := more + rest;
    }
    RunConcat(u, evs, more);
  }

  // ---------------------------------------------------------------------------
  // Taking messages
  // ---------------------------------------------------------------------------

  /** The worker took message k of the queue, and nothing else changed hands. */
  ghost predicate Took(s: State, t: State, k: nat)
    requires k < |s.orders|
  {
    t.taken == s.taken + [s.orders[k]] && t.orders == s.orders[..k] + s.orders[k + 1..] && t.pc.Visiting?
  }

  lemma PollTakes(u: Setup, s: State, k: nat)
    requires Safe(u, s) && s.pc.Polling? && OldestOfSession(s.orders, k)
    ensures Took(s, Then(u, s, Dequeue(k)), k)
  {
  }

  lemma TestGoesOn(u: Setup, s: State)
    requires Safe(u, s) && !s.stop && (s.pc.LoopTop? || s.pc.Missed?)
    ensures Then(u, s, CheckStop) == s.(pc := Polling)
  {
  }

  lemma TakeFrom(u: Setup, s: State, k: nat)
    requires Safe(u, s) && !s.stop && BetweenMessages(s) && OldestOfSession(s.orders, k)
    ensures Took(s, RunFrom(u, s, if s.pc.Polling? then [Dequeue(k)] else [CheckStop, Dequeue(k)]), k)
  {
    if s.pc.Polling? {
      OneStep(u, s, Dequeue(k));
      PollTakes(u, s, k);
    } else {
      TwoSteps(u, s, CheckStop, Dequeue(k));
      TestGoesOn(u, s);
      PollTakes(u, Then(u, s, CheckStop), k);
    }
  }

  /** Without a stop request, each message that is the oldest of its session in the queue can be the next one to
      be taken and settled. */
  lemma QueuedMessageCanSettle(u: Setup, evs: seq<Event>, k: nat) returns (more: seq<Event>)
    requires !Run(u, evs).stop && BetweenMessages(Run(u, evs)) && OldestOfSession(Run(u, evs).orders, k)
    ensures var s, t := Run(u, evs), Run(u, evs + more);
            Settled(t) && t.taken == s.taken + [s.orders[k]]
  {
    var s := Run(u, evs);
    more := if s.pc.Polling? then [Dequeue(k)] else [CheckStop, Dequeue(k)];
    TakeFrom(u, s, k);
    var mid := RunFrom(u, s, more);
    var rest := FinishMessage(u, mid);
    FromConcat(u, s, more, rest);
    more := more + rest;
    RunConcat(u, evs, more);
  }

  /** The oldest message of the trade queue can be taken at any time. */
  lemma TradeCanBeTaken(u: Setup, evs: seq<Event>)
    requires Run(u, evs).trades != []
    ensures var s, t := Run(u, evs), Run(u, evs + [TakeTrade]);
            t.tradesTaken == s.tradesTaken + [s.trades[0]] && t.trades == s.trades[1..]
  {
    assert (evs + [TakeTrade])[..|evs|] == evs;
  }

  // ---------------------------------------------------------------------------
  // Rendering
  // ---------------------------------------------------------------------------

  /** Whenever the mutex is free, the render thread can copy the book as it is, and give the mutex back. */
  lemma RenderFromFree(u: Setup, s: State) returns (more: seq<Event>)
    requires Safe(u, s) && s.lock.Free?
    ensures RowsCopied(s, RunFrom(u, s, more))
  {
    var mid := Then(u, s, RenderAcquire);
    assert mid == Next(u, s, RenderAcquire);
    var rest := RenderCanFinish(u, mid);
    FirstThen(u, s, RenderAcquire, rest);
    more := [RenderAcquire] + rest;
  }

  lemma RenderFrom(u: Setup, s: State) returns (more: seq<Event>)
    requires Safe(u, s) && !s.lock.HeldByWorker?
    ensures RowsCopied(s, RunFrom(u, s, more))
  {
    if s.lock.Free? {
      more := RenderFromFree(u, s);
    } else {
      more := RenderCanFinish(u, s);
    }
  }

  /** A render that is under way, or that is asked for while the mutex is free, can always be completed, without
      any help of the worker, and shows the book as it is. */
  lemma RenderCanComplete(u: Setup, evs: seq<Event>) returns (more: seq<Event>)
    requires !Run(u, evs).lock.HeldByWorker?
    ensures RowsCopied(Run(u, evs), Run(u, evs + more))
  {
    more := RenderFrom(u, Run(u, evs));
    RunConcat(u, evs, more);
  }

  /** A render of the whole book was added last, with the message settled. */
  ghost predicate SettledAndShown(s: State, t: State) {
    && Settled(t) && SameWork(s, t)
    && t.renders != [] && t.renders[|t.renders| - 1] == Render(ToRows(t.book), t.completed, t.pc.Dead?)
  }

  lemma ShownThen(s: State, mid: State, t: State)
    requires Settled(mid) && SameWork(s, mid) && RowsCopied(mid, t)
    ensures SettledAndShown(s, t)
  {
  }

  /** While the worker holds the mutex, a render can be completed once its message is settled. */
  lemma RenderAfterMessage(u: Setup, evs: seq<Event>) returns (more: seq<Event>)
    requires Run(u, evs).lock.HeldByWorker?
    ensures SettledAndShown(Run(u, evs), Run(u, evs + more))
  {
    var s := Run(u, evs);
    var first := MessageCanFinish(u, s);
    var mid := RunFrom(u, s, first);
    var rest := RenderFrom(u, mid);
    ShownThen(s, mid, RunFrom(u, mid, rest));
    FromConcat(u, s, first, rest);
    more := first + rest;
    RunConcat(u, evs, more);
  }
}
