// The entry-by-entry pipeline behaves like one in which a message is applied, and a screen copied, in
// a single indivisible step.
module Refinement {
  import opened Book
  import opened Pipeline
  import opened Rows
  import opened Wrappers

  datatype Status = Running | Halted | Failed

  datatype Atomic = Atomic(
    received: seq<Envelope>,
    orders: seq<Envelope>,
    trades: seq<Envelope>,
    taken: seq<Envelope>,
    completed: nat,
    tradesTaken: seq<Envelope>,
    book: Book,
    stop: bool,
    status: Status,
    renders: seq<Render>)

  datatype Action = Arrive(e: Envelope) | TradeOut | StopAsked | Take(k: nat) | ApplyWhole | Halt | Paint

  ghost predicate Allowed(a: Atomic, x: Action) {
    match x
    case Arrive(_) => true
    case TradeOut => a.trades != []
    case StopAsked => true
    case Take(k) => a.status.Running? && a.completed == |a.taken| && OldestOfSession(a.orders, k)
    case ApplyWhole => a.status.Running? && a.completed < |a.taken|
    case Halt => a.status.Running? && a.completed == |a.taken| && a.stop
    case Paint => true
  }

  ghost function Act(u: Setup, a: Atomic, x: Action): (r: Atomic)
    requires Allowed(a, x)
  {
    match x
    case Arrive(e) =>
      a.(received := a.received + [e],
         orders := a.orders + (if ToOrders(e) then [e] else []),
         trades := a.trades + (if ToTrades(e) then [e] else []))
    case TradeOut => a.(tradesTaken := a.tradesTaken + [a.trades[0]], trades := a.trades[1..])
    case StopAsked => a.(stop := true)
    case Take(k) => a.(taken := a.taken + [a.orders[k]], orders := a.orders[..k] + a.orders[k + 1..])
    case ApplyWhole =>
      var r := Apply(a.book, a.taken[a.completed].msg, u.clearNeeded);
      if r.threw then a.(book := r.book, status := Failed)
      else a.(book := r.book, completed := a.completed + 1)
    case Halt => a.(status := Halted)
    case Paint => a.(renders := a.renders + [Render(ToRows(a.book), a.completed, a.status.Failed?)])
  }

  /** What the atomic system sees of a state: while a message is half done, the book before it. */
  function Seen(u: Setup, s: State): (a: Atomic)
    requires Shape(s)
  {
    Atomic(s.received, s.orders, s.trades, s.taken, s.completed, s.tradesTaken,
           if s.pc.Dead? then s.book else BookAfter(u, s.taken, s.completed),
           s.stop,
           if s.pc.Dead? then Failed else if s.pc.Stopped? then Halted else Running,
           s.renders)
  }

  /** The atomic action at which an event takes effect, if it is one that does. */
  function Effect(s: State, ev: Event): (x: Option<Action>) {
    match ev
    case Receive(e) => Some(Arrive(e))
    case TakeTrade => Some(TradeOut)
    case RequestStop => Some(StopAsked)
    case CheckStop => if s.stop then Some(Halt) else None
    case Dequeue(k) => Some(Take(k))
    case Release => Some(ApplyWhole)
    case RenderRelease => Some(Paint)
    case _ => None
  }

  lemma ReleaseSimulates(u: Setup, s: State)
    requires Safe(u, s) && Enabled(s, Release)
    ensures Allowed(Seen(u, s), ApplyWhole)
    ensures Shape(Next(u, s, Release))
    ensures Seen(u, Next(u, s, Release)) == Act(u, Seen(u, s), ApplyWhole)
  {
    FinishEnded(s.book, Current(s), u.clearNeeded);
    BookAfterStep(u, s.taken, s.completed);
  }

  lemma PaintSimulates(u: Setup, s: State)
    requires Safe(u, s) && Enabled(s, RenderRelease)
    ensures Shape(Next(u, s, RenderRelease))
    ensures Seen(u, Next(u, s, RenderRelease)) == Act(u, Seen(u, s), Paint)
  {
    assert s.painter.rows == ToRows(s.book);
  }

  lemma DequeueSimulates(u: Setup, s: State, k: nat)
    requires Safe(u, s) && Enabled(s, Dequeue(k))
    ensures Allowed(Seen(u, s), Take(k))
    ensures Shape(Next(u, s, Dequeue(k)))
    ensures Seen(u, Next(u, s, Dequeue(k))) == Act(u, Seen(u, s), Take(k))
  {
    BookAfterStable(u, s.taken, s.orders[k], s.completed);
  }

  lemma QueueSimulates(u: Setup, s: State, ev: Event)
    requires Safe(u, s) && Enabled(s, ev) && (ev.Receive? || ev.TakeTrade?)
    requires Shape(Next(u, s, ev))
    ensures Allowed(Seen(u, s), Effect(s, ev).value)
    ensures Seen(u, Next(u, s, ev)) == Act(u, Seen(u, s), Effect(s, ev).value)
  {
  }

  lemma StopSimulates(u: Setup, s: State, ev: Event)
    requires Safe(u, s) && Enabled(s, ev) && (ev.RequestStop? || ev.CheckStop?)
    requires Shape(Next(u, s, ev))
    ensures match Effect(s, ev)
            case Some(x) => Allowed(Seen(u, s), x) && Seen(u, Next(u, s, ev)) == Act(u, Seen(u, s), x)
            case None => Seen(u, Next(u, s, ev)) == Seen(u, s)
  {
  }

  lemma InvisibleSimulates(u: Setup, s: State, ev: Event)
    requires Safe(u, s) && Enabled(s, ev)
    requires ev.Miss? || ev.Acquire? || ev.DoEntry? || ev.RenderAcquire? || ev.RenderRow?
    requires Shape(Next(u, s, ev))
    ensures Seen(u, Next(u, s, ev)) == Seen(u, s)
  {
  }

  /** Every event is an atomic action or invisible. */
  lemma Simulates(u: Setup, s: State, ev: Event)
    requires Safe(u, s) && Enabled(s, ev)
    ensures Safe(u, Next(u, s, ev))
    ensures match Effect(s, ev)
            case Some(x) => Allowed(Seen(u, s), x) && Seen(u, Next(u, s, ev)) == Act(u, Seen(u, s), x)
            case None => Seen(u, Next(u, s, ev)) == Seen(u, s)
  {
    NextSafe(u, s, ev);
    match ev
    case Release => ReleaseSimulates(u, s);
    case RenderRelease => PaintSimulates(u, s);
    case Dequeue(k) => DequeueSimulates(u, s, k);
    case Receive(_) => QueueSimulates(u, s, ev);
    case TakeTrade => QueueSimulates(u, s, ev);
    case RequestStop => StopSimulates(u, s, ev);
    case CheckStop => StopSimulates(u, s, ev);
    case _ => InvisibleSimulates(u, s, ev);
  }

  ghost function RunAtomic(u: Setup, xs: seq<Action>): (a: Atomic)
    decreases |xs|
  {
    if xs == [] then Seen(u, Initial(u))
    else
      var a := RunAtomic(u, xs[..|xs| - 1]);
      if Allowed(a, xs[|xs| - 1]) then Act(u, a, xs[|xs| - 1]) else a
  }

  /** The atomic actions of a run. */
  ghost function Effects(u: Setup, evs: seq<Event>): (xs: seq<Action>)
    decreases |evs|
  {
    if evs == [] then []
    else
      var init, ev := evs[..|evs| - 1], evs[|evs| - 1];
      var s := Run(u, init);
      Effects(u, init) + (if Enabled(s, ev) && Effect(s, ev).Some? then [Effect(s, ev).value] else [])
  }

  /** Every run of the pipeline is a run of the atomic system. */
  lemma {:induction false} RunRefines(u: Setup, evs: seq<Event>)
    ensures Seen(u, Run(u, evs)) == RunAtomic(u, Effects(u, evs))
    decreases |evs|
  {
    if evs != [] {
      var init, ev := evs[..|evs| - 1], evs[|evs| - 1];
      var s := Run(u, init);
      RunRefines(u, init);
      if Enabled(s, ev) {
        Simulates(u, s, ev);
        if Effect(s, ev).Some? {
          var xs := Effects(u, evs);
          assert xs[..|xs| - 1] == Effects(u, init);
        } else {
          assert Effects(u, evs) == Effects(u, init);
        }
      } else {
        assert Effects(u, evs) == Effects(u, init);
      }
    }
  }

  // ---------------------------------------------------------------------------
  // What the screen shows
  // ---------------------------------------------------------------------------

  /** The book that a render was taken from: the one after the completed messages, or, after an
      exception, that book with what the throwing message did before it threw. */
  function Shown(u: Setup, taken: seq<Envelope>, r: Render): (b: Book)
    requires r.completed <= |taken| && (r.dead ==> r.completed < |taken|)
  {
    if r.dead then Apply(BookAfter(u, taken, r.completed), taken[r.completed].msg, u.clearNeeded).book
    else BookAfter(u, taken, r.completed)
  }

  ghost predicate RenderRight(u: Setup, a: Atomic, r: Render) {
    && r.completed <= a.completed <= |a.taken|
    && (r.dead ==> a.status.Failed? && r.completed == a.completed < |a.taken|
                   && Apply(BookAfter(u, a.taken, r.completed), a.taken[r.completed].msg, u.clearNeeded).threw)
    && r.rows == ToRows(Shown(u, a.taken, r))
  }

  ghost predicate BookOk(u: Setup, a: Atomic) {
    && a.completed <= |a.taken|
    && if a.status.Failed?
       then a.completed < |a.taken|
            && Outcome(a.book, true)
               == Apply(BookAfter(u, a.taken, a.completed), a.taken[a.completed].msg, u.clearNeeded)
       else a.book == BookAfter(u, a.taken, a.completed)
  }

  predicate InOrder(r: Render, q: Render) {
    r.completed <= q.completed && (r.dead ==> q.dead)
  }

  ghost predicate RendersOk(u: Setup, a: Atomic) {
    && (forall i :: 0 <= i < |a.renders| ==> RenderRight(u, a, a.renders[i]))
    && (forall i, j :: 0 <= i < j < |a.renders| ==> InOrder(a.renders[i], a.renders[j]))
  }

  lemma BookStaysOk(u: Setup, a: Atomic, x: Action)
    requires BookOk(u, a) && Allowed(a, x)
    ensures BookOk(u, Act(u, a, x))
  {
    match x
    case Take(k) => BookAfterStable(u, a.taken, a.orders[k], a.completed);
    case ApplyWhole => BookAfterStep(u, a.taken, a.completed);
    case _ =>
  }

  lemma RenderStaysRight(u: Setup, a: Atomic, x: Action, r: Render)
    requires BookOk(u, a) && Allowed(a, x) && RenderRight(u, a, r)
    ensures RenderRight(u, Act(u, a, x), r)
  {
    if x.Take? {
      BookAfterStable(u, a.taken, a.orders[x.k], r.completed);
    }
  }

  lemma NewRenderRight(u: Setup, a: Atomic, r: Render)
    requires BookOk(u, a) && r == Render(ToRows(a.book), a.completed, a.status.Failed?)
    ensures RenderRight(u, a, r)
    ensures forall q :: RenderRight(u, a, q) ==> InOrder(q, r)
  {
  }

  lemma RendersAfter(u: Setup, a: Atomic, x: Action)
    requires Allowed(a, x)
    ensures var r := Render(ToRows(a.book), a.completed, a.status.Failed?);
            Act(u, a, x).renders == if x.Paint? then a.renders + [r] else a.renders
  {
  }

  lemma RenderAtRight(u: Setup, a: Atomic, x: Action, i: nat)
    requires BookOk(u, a) && RendersOk(u, a) && Allowed(a, x) && i < |Act(u, a, x).renders|
    ensures RenderRight(u, Act(u, a, x), Act(u, a, x).renders[i])
  {
    RendersAfter(u, a, x);
    var r := Act(u, a, x).renders[i];
    if i == |a.renders| {
      NewRenderRight(u, a, r);
    }
    assert RenderRight(u, a, r);
    RenderStaysRight(u, a, x, r);
  }

  lemma RendersInOrder(u: Setup, a: Atomic, x: Action, i: nat, j: nat)
    requires BookOk(u, a) && RendersOk(u, a) && Allowed(a, x) && i < j < |Act(u, a, x).renders|
    ensures InOrder(Act(u, a, x).renders[i], Act(u, a, x).renders[j])
  {
    RendersAfter(u, a, x);
    if j == |a.renders| {
      NewRenderRight(u, a, Act(u, a, x).renders[j]);
      assert RenderRight(u, a, a.renders[i]);
    }
  }

  lemma RendersStayOk(u: Setup, a: Atomic, x: Action)
    requires BookOk(u, a) && RendersOk(u, a) && Allowed(a, x)
    ensures RendersOk(u, Act(u, a, x))
  {
    var renders := Act(u, a, x).renders;
    forall i | 0 <= i < |renders|
      ensures RenderRight(u, Act(u, a, x), renders[i])
    {
      RenderAtRight(u, a, x, i);
    }
    forall i, j | 0 <= i < j < |renders|
      ensures InOrder(renders[i], renders[j])
    {
      RendersInOrder(u, a, x, i, j);
    }
  }

  lemma {:induction false} RunAtomicRight(u: Setup, xs: seq<Action>)
    ensures BookOk(u, RunAtomic(u, xs)) && RendersOk(u, RunAtomic(u, xs))
    decreases |xs|
  {
    if xs != [] {
      RunAtomicRight(u, xs[..|xs| - 1]);
      var a := RunAtomic(u, xs[..|xs| - 1]);
      if Allowed(a, xs[|xs| - 1]) {
        BookStaysOk(u, a, xs[|xs| - 1]);
        RendersStayOk(u, a, xs[|xs| - 1]);
      }
    }
  }

  /** The render shows a whole number of completed messages, and after an exception also what the throwing
      message left behind. */
  ghost predicate ShowsWholeMessages(u: Setup, s: State, r: Render) {
    && r.completed <= s.completed <= |s.taken|
    && (r.dead ==> s.pc.Dead? && r.completed == s.completed < |s.taken|
                   && MessageTrace(s.taken[r.completed].msg, u.clearNeeded).threw)
    && r.rows == ToRows(Shown(u, s.taken, r))
  }

  /** In every interleaving, every render shows the book after a whole number of messages, none of which
      threw, until an exception; from then on it shows what the throwing message left behind. */
  lemma RendersShowWholeMessages(u: Setup, evs: seq<Event>)
    ensures var s := Run(u, evs);
            && (forall i :: 0 <= i < |s.renders| ==> ShowsWholeMessages(u, s, s.renders[i]))
            && (forall k :: 0 <= k < s.completed ==> !MessageTrace(s.taken[k].msg, u.clearNeeded).threw)
  {
    var s := Run(u, evs);
    RunRefines(u, evs);
    RunAtomicRight(u, Effects(u, evs));
    forall i | 0 <= i < |s.renders|
      ensures ShowsWholeMessages(u, s, s.renders[i])
    {
      assert RenderRight(u, Seen(u, s), s.renders[i]);
    }
  }

  /** Later renders never show fewer messages, and a dead worker stays dead. */
  lemma RendersNeverGoBack(u: Setup, evs: seq<Event>)
    ensures var rs := Run(u, evs).renders;
            forall i, j :: 0 <= i < j < |rs| ==> rs[i].completed <= rs[j].completed && (rs[i].dead ==> rs[j].dead)
  {
    RunRefines(u, evs);
    RunAtomicRight(u, Effects(u, evs));
    var rs := Run(u, evs).renders;
    forall i, j | 0 <= i < j < |rs|
      ensures rs[i].completed <= rs[j].completed && (rs[i].dead ==> rs[j].dead)
    {
      assert InOrder(rs[i], rs[j]);
    }
  }

  /** The rows of a render read back as exactly the book they were taken from. */
  ghost predicate ReadsBack(u: Setup, s: State, r: Render) {
    ShowsWholeMessages(u, s, r) && Rebuild(r.rows) == Shown(u, s.taken, r)
  }

  lemma ShownReadsBack(u: Setup, s: State, r: Render)
    requires BelowSentinel(u.book) && ShowsWholeMessages(u, s, r)
    ensures ReadsBack(u, s, r)
  {
    StreamRowsLossless(u.book, Msgs(s.taken[..r.completed]), u.clearNeeded);
    if r.dead {
      ApplyBelow(BookAfter(u, s.taken, r.completed), s.taken[r.completed].msg, u.clearNeeded);
    }
    LosslessIff(Shown(u, s.taken, r));
  }

  lemma RenderShows(u: Setup, evs: seq<Event>, i: nat)
    requires i < |Run(u, evs).renders|
    ensures ShowsWholeMessages(u, Run(u, evs), Run(u, evs).renders[i])
  {
    RendersShowWholeMessages(u, evs);
  }

  lemma RenderReadsBack(u: Setup, evs: seq<Event>, i: nat)
    requires BelowSentinel(u.book) && i < |Run(u, evs).renders|
    ensures ReadsBack(u, Run(u, evs), Run(u, evs).renders[i])
  {
    RenderShows(u, evs, i);
    ShownReadsBack(u, Run(u, evs), Run(u, evs).renders[i]);
  }

  /** Started with any book without a level at the sentinel price, the rows of a render determine the
      book it was taken from, in every run. */
  lemma RowsDetermineBook(u: Setup, evs: seq<Event>)
    requires BelowSentinel(u.book)
    ensures forall i :: 0 <= i < |Run(u, evs).renders| ==> ReadsBack(u, Run(u, evs), Run(u, evs).renders[i])
  {
    forall i | 0 <= i < |Run(u, evs).renders|
      ensures ReadsBack(u, Run(u, evs), Run(u, evs).renders[i])
    {
      RenderReadsBack(u, evs, i);
    }
  }

  // ---------------------------------------------------------------------------
  // A dequeued message is always finished
  // ---------------------------------------------------------------------------

  /** Going on from a state. */
  ghost function RunFrom(u: Setup, s: State, evs: seq<Event>): (t: State)
    requires Safe(u, s)
    ensures Safe(u, t)
    decreases |evs|
  {
    if evs == [] then s else RunFrom(u, Then(u, s, evs[0]), evs[1..])
  }

  lemma {:induction false} RunConcat(u: Setup, evs: seq<Event>, more: seq<Event>)
    ensures Run(u, evs + more) == RunFrom(u, Run(u, evs), more)
    decreases |more|
  {
    if more == [] {
      assert evs + more == evs;
    } else {
      var here := evs + [more[0]];
      assert here[..|here| - 1] == evs;
      assert evs + more == here + more[1..];
      RunConcat(u, here, more[1..]);
    }
  }

  lemma FirstThen(u: Setup, s: State, ev: Event, more: seq<Event>)
    requires Safe(u, s)
    ensures RunFrom(u, s, [ev] + more) == RunFrom(u, Then(u, s, ev), more)
  {
    assert ([ev] + more)[1..] == more;
  }

  /** The message was applied as a whole, or its exception ended the worker. */
  predicate Settled(s: State) {
    s.pc.Dead? || (s.pc.LoopTop? && s.completed == |s.taken|)
  }

  predicate SameWork(s: State, t: State) {
    t.taken == s.taken && t.stop == s.stop
  }

  lemma EntrySteps(u: Setup, s: State)
    requires Safe(u, s) && s.pc.Inside? && (s.pc.c.Begin? || s.pc.c.At?)
    ensures var t := Then(u, s, DoEntry);
            && t.pc.Inside? && SameWork(s, t)
            && StepsLeft(Current(t), t.pc.c) < StepsLeft(Current(s), s.pc.c)
  {
    StepProgress(Current(s), s.pc.c, u.clearNeeded);
  }

  lemma ReleaseSettles(u: Setup, s: State)
    requires Safe(u, s) && s.pc.Inside? && (s.pc.c.Done? || s.pc.c.Threw?)
    ensures Settled(Then(u, s, Release)) && SameWork(s, Then(u, s, Release))
  {
  }

  lemma {:induction false} MessageCanFinish(u: Setup, s: State) returns (more: seq<Event>)
    requires Safe(u, s) && s.pc.Inside?
    ensures Settled(RunFrom(u, s, more)) && SameWork(s, RunFrom(u, s, more))
    decreases StepsLeft(Current(s), s.pc.c)
  {
    if s.pc.c.Begin? || s.pc.c.At? {
      EntrySteps(u, s);
      more := MessageCanFinish(u, Then(u, s, DoEntry));
      FirstThen(u, s, DoEntry, more);
      more := [DoEntry] + more;
    } else {
      ReleaseSettles(u, s);
      more := [Release];
      FirstThen(u, s, Release, []);
    }
  }

  /** Everything but the render thread, and what it has completed so far, is as it was. */
  predicate SameButPainter(s: State, t: State) {
    t.pc == s.pc && SameWork(s, t) && t.book == s.book && t.completed == s.completed
  }

  predicate OneRowMore(s: State, t: State) {
    && s.painter.Copying? && t.painter.Copying? && |t.painter.rows| == |s.painter.rows| + 1
    && SameButPainter(s, t) && t.renders == s.renders
  }

  /** A complete copy of the rows of the book was added to the renders, and the mutex is free. */
  ghost predicate RowsCopied(s: State, t: State) {
    && t.lock.Free? && t.painter.Idle? && SameButPainter(s, t)
    && t.renders == s.renders + [Render(ToRows(s.book), s.completed, s.pc.Dead?)]
  }

  lemma RowCopied(u: Setup, s: State)
    requires Safe(u, s) && Enabled(s, RenderRow)
    ensures OneRowMore(s, Then(u, s, RenderRow))
  {
    assert Then(u, s, RenderRow) == Next(u, s, RenderRow);
  }

  lemma RowsDone(u: Setup, s: State)
    requires Safe(u, s) && Enabled(s, RenderRelease)
    ensures RowsCopied(s, Then(u, s, RenderRelease))
  {
    assert s.painter.rows == ToRows(s.book);
    assert Then(u, s, RenderRelease) == Next(u, s, RenderRelease);
  }

  lemma {:induction false} RenderCanFinish(u: Setup, s: State) returns (more: seq<Event>)
    requires Safe(u, s) && s.painter.Copying?
    ensures RowsCopied(s, RunFrom(u, s, more))
    decreases |ToRows(s.book)| - |s.painter.rows|
  {
    if |s.painter.rows| < |ToRows(s.book)| {
      RowCopied(u, s);
      more := RenderCanFinish(u, Then(u, s, RenderRow));
      FirstThen(u, s, RenderRow, more);
      more := [RenderRow] + more;
    } else {
      RowsDone(u, s);
      more := [RenderRelease];
      FirstThen(u, s, RenderRelease, []);
    }
  }

  lemma {:induction false} FromConcat(u: Setup, s: State, xs: seq<Event>, ys: seq<Event>)
    requires Safe(u, s)
    ensures RunFrom(u, s, xs + ys) == RunFrom(u, RunFrom(u, s, xs), ys)
    decreases |xs|
  {
    if xs == [] {
      assert xs + ys == ys;
    } else {
      assert (xs + ys)[1..] == xs[1..] + ys;
      FromConcat(u, Then(u, s, xs[0]), xs[1..], ys);
    }
  }

  lemma WaitingCanFinish(u: Setup, s: State) returns (more: seq<Event>)
    requires Safe(u, s) && s.pc.Visiting?
    ensures Settled(RunFrom(u, s, more)) && SameWork(s, RunFrom(u, s, more))
  {
    var first: seq<Event> := [];
    if s.painter.Copying? {
      first := RenderCanFinish(u, s);
    }
    var t := RunFrom(u, s, first);
    var rest := MessageCanFinish(u, Then(u, t, Acquire));
    FirstThen(u, t, Acquire, rest);
    FromConcat(u, s, first, [Acquire] + rest);
    more := first + ([Acquire] + rest);
  }

  /** Whatever the stop flag says, a message that left the queue can always be finished, with no help
      from outside: neither the mutex nor a stop request blocks it for good. */
  lemma TakenMessageCanFinish(u: Setup, evs: seq<Event>) returns (more: seq<Event>)
    ensures Run(u, evs).pc.Visiting? || Run(u, evs).pc.Inside? ==>
              Settled(Run(u, evs + more)) && SameWork(Run(u, evs), Run(u, evs + more))
  {
    more := [];
    if Run(u, evs).pc.Inside? {
      more := MessageCanFinish(u, Run(u, evs));
    } else if Run(u, evs).pc.Visiting? {
      more := WaitingCanFinish(u, Run(u, evs));
    }
    RunConcat(u, evs, more);
  }
}
