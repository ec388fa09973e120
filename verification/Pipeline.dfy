// The threads around the order book as a state machine whose steps are single message entries.
//
// FIX session threads receive messages and enqueue them; the book worker dequeues and applies them
// under the book's mutex; the render thread copies rows under the same mutex; a stop request can
// arrive at any time. Every interleaving is a sequence of events.
module Pipeline {
  import opened Book
  import opened Messages
  import opened Rows

  /** The FIX session qualifiers that the application knows, and any other. */
  datatype Session = PX | TX | OX | Unknown(qualifier: string)

  datatype Envelope = Envelope(session: Session, msg: Message)

  /** FixApp::onMessage: a snapshot goes to the order queue from any session, an increment from PX only. */
  predicate ToOrders(e: Envelope) {
    e.msg.Snapshot? || e.session == PX
  }

  /** Only increments of the TX session go to the trade queue. */
  predicate ToTrades(e: Envelope) {
    e.msg.Increment? && e.session == TX
  }

  /** Where the book worker is in OrderBookBox::poll_queue. */
  datatype Pc =
    | LoopTop           // about to test stop_requested() in the outer loop
    | Polling           // about to call try_dequeue
    | Missed            // try_dequeue failed; about to test stop_requested() again
    | Visiting          // holds a message, waits for the mutex
    | Inside(c: Cursor) // inside apply_snapshot or apply_increment
    | Stopped           // returned
    | Dead              // an exception ended the loop

  datatype Lock = Free | HeldByWorker | HeldByRenderer

  /** The render thread: outside to_vector, or inside it with the rows pushed so far. */
  datatype Painter = Idle | Copying(rows: seq<Row>)

  /** A completed to_vector call, with what the worker had finished by then. */
  datatype Render = Render(rows: seq<Row>, completed: nat, dead: bool)

  /** received, taken, completed, tradesTaken and renders are history; the rest is the program's state. */
  datatype State = State(
    received: seq<Envelope>,
    orders: seq<Envelope>,
    trades: seq<Envelope>,
    taken: seq<Envelope>,
    completed: nat,
    tradesTaken: seq<Envelope>,
    book: Book,
    pc: Pc,
    lock: Lock,
    stop: bool,
    painter: Painter,
    renders: seq<Render>)

  /** The book the box starts with, and IS_BOOK_CLEAR_NEEDED_. */
  datatype Setup = Setup(book: Book, clearNeeded: bool)

  datatype Event =
    | Receive(e: Envelope)
    | TakeTrade
    | RequestStop
    | CheckStop
    | Dequeue(k: nat)
    | Miss
    | Acquire
    | DoEntry
    | Release
    | RenderAcquire
    | RenderRow
    | RenderRelease

  function Initial(u: Setup): (s: State) {
    State([], [], [], [], 0, [], u.book, LoopTop, Free, false, Idle, [])
  }

  /** The order queue is first-in first-out per producer only: k is the oldest of its session. */
  ghost predicate OldestOfSession(q: seq<Envelope>, k: nat) {
    k < |q| && forall j :: 0 <= j < k ==> q[j].session != q[k].session
  }

  ghost predicate Enabled(s: State, ev: Event) {
    match ev
    case Receive(_) => true
    case TakeTrade => s.trades != []
    case RequestStop => true
    case CheckStop => s.pc.LoopTop? || s.pc.Missed?
    case Dequeue(k) => s.pc.Polling? && OldestOfSession(s.orders, k)
    case Miss => s.pc.Polling?
    case Acquire => s.pc.Visiting? && s.lock.Free?
    case DoEntry => s.pc.Inside? && (s.pc.c.Begin? || s.pc.c.At?)
    case Release => s.pc.Inside? && (s.pc.c.Done? || s.pc.c.Threw?)
    case RenderAcquire => s.painter.Idle? && s.lock.Free?
    case RenderRow => s.painter.Copying? && |s.painter.rows| < |ToRows(s.book)|
    case RenderRelease => s.painter.Copying? && |ToRows(s.book)| <= |s.painter.rows|
  }

  /** The message that left the queue last. */
  function Current(s: State): (m: Message)
    requires s.taken != []
  {
    s.taken[|s.taken| - 1].msg
  }

  ghost function Next(u: Setup, s: State, ev: Event): (t: State)
    requires Enabled(s, ev)
    requires s.pc.Inside? ==> s.taken != []
  {
    match ev
    case Receive(e) =>
      s.(received := s.received + [e],
         orders := s.orders + (if ToOrders(e) then [e] else []),
         trades := s.trades + (if ToTrades(e) then [e] else []))
    case TakeTrade => s.(tradesTaken := s.tradesTaken + [s.trades[0]], trades := s.trades[1..])
    case RequestStop => s.(stop := true)
    case CheckStop => s.(pc := if s.stop then Stopped else Polling)
    case Dequeue(k) =>
      s.(taken := s.taken + [s.orders[k]], orders := s.orders[..k] + s.orders[k + 1..], pc := Visiting)
    case Miss => s.(pc := Missed)
    case Acquire => s.(lock := HeldByWorker, pc := Inside(Begin))
    case DoEntry =>
      var v := Step(Current(s), s.pc.c, u.clearNeeded);
      s.(book := DoAll(s.book, v.ops), pc := Inside(v.next))
    case Release =>
      if s.pc.c.Threw? then s.(lock := Free, pc := Dead)
      else s.(lock := Free, pc := LoopTop, completed := s.completed + 1)
    case RenderAcquire => s.(lock := HeldByRenderer, painter := Copying([]))
    case RenderRow => s.(painter := Copying(s.painter.rows + [ToRows(s.book)[|s.painter.rows|]]))
    case RenderRelease =>
      s.(lock := Free, painter := Idle,
         renders := s.renders + [Render(s.painter.rows, s.completed, s.pc.Dead?)])
  }

  // ---------------------------------------------------------------------------
  // Safety of the control structure
  // ---------------------------------------------------------------------------

  function Msgs(es: seq<Envelope>): (ms: seq<Message>)
    ensures |ms| == |es|
    ensures forall i :: 0 <= i < |es| ==> ms[i] == es[i].msg
  {
    seq(|es|, i requires 0 <= i < |es| => es[i].msg)
  }

  /** The book after the first n messages that the worker took. */
  function BookAfter(u: Setup, taken: seq<Envelope>, n: nat): (b: Book)
    requires n <= |taken|
  {
    ApplyAll(u.book, Msgs(taken[..n]), u.clearNeeded)
  }

  predicate InFlight(pc: Pc) {
    pc.Visiting? || pc.Inside? || pc.Dead?
  }

  /** Mutual exclusion and bookkeeping. */
  predicate Shape(s: State) {
    && (s.lock.HeldByWorker? <==> s.pc.Inside?)
    && (s.lock.HeldByRenderer? <==> s.painter.Copying?)
    && |s.taken| == s.completed + (if InFlight(s.pc) then 1 else 0)
  }

  /** The book is the one after the completed messages; inside a message it is on the way from that to
      what the message as a whole makes of it; after an exception it is what the message left. */
  ghost predicate BookRight(u: Setup, s: State)
    requires Shape(s)
  {
    var base := BookAfter(u, s.taken, s.completed);
    if s.pc.Inside? then Finish(s.book, Current(s), s.pc.c, u.clearNeeded) == Apply(base, Current(s), u.clearNeeded)
    else if s.pc.Dead? then Outcome(s.book, true) == Apply(base, Current(s), u.clearNeeded)
    else s.book == base
  }

  /** No completed message threw. */
  ghost predicate NoneThrew(u: Setup, s: State)
    requires Shape(s)
  {
    forall i :: 0 <= i < s.completed ==> !MessageTrace(s.taken[i].msg, u.clearNeeded).threw
  }

  /** A half-copied row list is a prefix of the rows of the book. */
  ghost predicate PaintRight(s: State) {
    s.painter.Copying? ==> s.painter.rows <= ToRows(s.book)
  }

  ghost predicate Safe(u: Setup, s: State) {
    Shape(s) && BookRight(u, s) && NoneThrew(u, s) && PaintRight(s)
  }

  lemma BookAfterStable(u: Setup, taken: seq<Envelope>, e: Envelope, n: nat)
    requires n <= |taken|
    ensures BookAfter(u, taken + [e], n) == BookAfter(u, taken, n)
  {
    assert (taken + [e])[..n] == taken[..n];
  }

  lemma BookAfterStep(u: Setup, taken: seq<Envelope>, n: nat)
    requires n < |taken|
    ensures BookAfter(u, taken, n + 1) == Apply(BookAfter(u, taken, n), taken[n].msg, u.clearNeeded).book
  {
    var ms := Msgs(taken[..n + 1]);
    assert ms[..n] == Msgs(taken[..n]);
  }

  lemma InitialSafe(u: Setup)
    ensures Safe(u, Initial(u))
  {
    assert Msgs([]) == [];
  }

  lemma NextShape(u: Setup, s: State, ev: Event)
    requires Shape(s) && Enabled(s, ev)
    ensures Shape(Next(u, s, ev))
  {
  }

  lemma CopyRow(u: Setup, s: State)
    requires Shape(s) && PaintRight(s) && Enabled(s, RenderRow)
    ensures PaintRight(Next(u, s, RenderRow))
  {
    PrefixGrows(s.painter.rows, ToRows(s.book));
  }

  lemma PrefixGrows<T>(xs: seq<T>, ys: seq<T>)
    requires xs <= ys && |xs| < |ys|
    ensures xs + [ys[|xs|]] <= ys
  {
  }

  lemma BookStill(u: Setup, s: State, ev: Event)
    requires Shape(s) && s.painter.Copying? && Enabled(s, ev)
    ensures Next(u, s, ev).book == s.book
  {
  }

  /** The mutex keeps the book still while rows are copied. */
  lemma NextPaint(u: Setup, s: State, ev: Event)
    requires Shape(s) && PaintRight(s) && Enabled(s, ev)
    ensures PaintRight(Next(u, s, ev))
  {
    if ev.RenderRow? {
      CopyRow(u, s);
    } else if s.painter.Copying? {
      BookStill(u, s, ev);
    }
  }

  lemma EntryKeepsBook(u: Setup, s: State)
    requires Safe(u, s) && Enabled(s, DoEntry)
    requires Shape(Next(u, s, DoEntry))
    ensures BookRight(u, Next(u, s, DoEntry))
  {
    FinishStep(s.book, Current(s), s.pc.c, u.clearNeeded);
  }

  lemma ReleaseKeepsBook(u: Setup, s: State)
    requires Safe(u, s) && Enabled(s, Release)
    requires Shape(Next(u, s, Release))
    ensures BookRight(u, Next(u, s, Release))
  {
    FinishEnded(s.book, Current(s), u.clearNeeded);
    BookAfterStep(u, s.taken, s.completed);
  }

  lemma NextBook(u: Setup, s: State, ev: Event)
    requires Safe(u, s) && Enabled(s, ev)
    requires Shape(Next(u, s, ev))
    ensures BookRight(u, Next(u, s, ev))
  {
    if ev.DoEntry? {
      EntryKeepsBook(u, s);
    } else if ev.Release? {
      ReleaseKeepsBook(u, s);
    } else if ev.Dequeue? {
      BookAfterStable(u, s.taken, s.orders[ev.k], s.completed);
    }
  }

  lemma NextNoneThrew(u: Setup, s: State, ev: Event)
    requires Safe(u, s) && Enabled(s, ev)
    requires Shape(Next(u, s, ev))
    ensures NoneThrew(u, Next(u, s, ev))
  {
    if ev.Release? {
      FinishEnded(s.book, Current(s), u.clearNeeded);
    }
  }

  /** Every event keeps the invariant. */
  lemma NextSafe(u: Setup, s: State, ev: Event)
    requires Safe(u, s) && Enabled(s, ev)
    ensures Safe(u, Next(u, s, ev))
  {
    NextShape(u, s, ev);
    NextPaint(u, s, ev);
    NextBook(u, s, ev);
    NextNoneThrew(u, s, ev);
  }

  // ---------------------------------------------------------------------------
  // All runs
  // ---------------------------------------------------------------------------

  /** The state after a sequence of events; an event that is not enabled does nothing. */
  ghost function Run(u: Setup, evs: seq<Event>): (s: State)
    ensures Safe(u, s)
    decreases |evs|
  {
    if evs == [] then
      InitialSafe(u);
      Initial(u)
    else
      Then(u, Run(u, evs[..|evs| - 1]), evs[|evs| - 1])
  }

  ghost function Then(u: Setup, s: State, ev: Event): (t: State)
    requires Safe(u, s)
    ensures Safe(u, t)
  {
    if Enabled(s, ev) then
      NextSafe(u, s, ev);
      Next(u, s, ev)
    else s
  }
}
