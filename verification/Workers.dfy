// The message handlers of binance::FixApp and the polling loop of ui::OrderBookBox.
module Workers {
  import opened Book
  import opened Messages
  import opened OrderBooks
  import opened Pipeline
  import opened Wrappers

  function SessionOf(qualifier: string): (s: Session)
    ensures s == PX <==> qualifier == "PX"
    ensures s == TX <==> qualifier == "TX"
  {
    if qualifier == "PX" then PX
    else if qualifier == "TX" then TX
    else if qualifier == "OX" then OX
    else Unknown(qualifier)
  }

  /** The two queues that the FIX sessions fill. */
  class FixApp {
    var orderQueue: seq<Envelope>
    var tradeQueue: seq<Envelope>

    constructor ()
      ensures orderQueue == [] && tradeQueue == []
    {
      orderQueue := [];
      tradeQueue := [];
    }

    /** onMessage for a snapshot: the session is not looked at. */
    method OnSnapshot(m: Message, qualifier: string)
      requires m.Snapshot?
      modifies this
      ensures orderQueue == old(orderQueue) + [Envelope(SessionOf(qualifier), m)] && tradeQueue == old(tradeQueue)
      ensures var e := Envelope(SessionOf(qualifier), m);
              && orderQueue == old(orderQueue) + (if ToOrders(e) then [e] else [])
              && tradeQueue == old(tradeQueue) + (if ToTrades(e) then [e] else [])
    {
      orderQueue := orderQueue + [Envelope(SessionOf(qualifier), m)];
    }

    /** onMessage for an increment: routed by session, dropped if the session is neither PX nor TX. */
    method OnIncrement(m: Message, qualifier: string)
      requires m.Increment?
      modifies this
      ensures orderQueue == old(orderQueue) + (if qualifier == "PX" then [Envelope(PX, m)] else [])
      ensures tradeQueue == old(tradeQueue) + (if qualifier == "TX" then [Envelope(TX, m)] else [])
      ensures var e := Envelope(SessionOf(qualifier), m);
              && orderQueue == old(orderQueue) + (if ToOrders(e) then [e] else [])
              && tradeQueue == old(tradeQueue) + (if ToTrades(e) then [e] else [])
    {
      if qualifier == "PX" {
        orderQueue := orderQueue + [Envelope(PX, m)];
      } else if qualifier == "TX" {
        tradeQueue := tradeQueue + [Envelope(TX, m)];
      }
    }
  }

  // ---------------------------------------------------------------------------
  // Adaptive backoff
  // ---------------------------------------------------------------------------

  datatype Wait = Yield | Sleep(us: nat)

  function Pow2(n: nat): (p: nat)
    ensures 0 < p
  {
    if n == 0 then 1 else 2 * Pow2(n - 1)
  }

  function Min(a: nat, b: nat): (m: nat) {
    if a < b then a else b
  }

  /** The wait after the n-th consecutive empty poll, counted from 0. */
  function WaitAt(n: nat): (w: Wait) {
    if n < 10 then Yield else Sleep(Min(10 * Pow2(n - 10), 1000))
  }

  /** The two counters of poll_queue, an 8-bit and a 16-bit integer, after n consecutive empty polls. */
  predicate Counters(spinCount: nat, sleepUs: nat, n: nat) {
    && spinCount == Min(n, 10)
    && sleepUs == if n < 10 then 10 else Min(10 * Pow2(n - 10), 1000)
  }

  /** adaptive_backoff; increments and the doubling are done modulo 2^8 and 2^16. */
  method AdaptiveBackoff(spinCount: nat, sleepUs: nat, ghost n: nat) returns (w: Wait, spinCount': nat, sleepUs': nat)
    requires Counters(spinCount, sleepUs, n)
    ensures w == WaitAt(n)
    ensures Counters(spinCount', sleepUs', n + 1)
  {
    spinCount', sleepUs' := spinCount, sleepUs;
    if spinCount < 10 {
      spinCount' := (spinCount + 1) % 0x100;
      w := Yield;
    } else {
      w := Sleep(sleepUs);
      sleepUs' := Min(sleepUs * 2 % 0x1_0000, 1000);
      assert Pow2(n + 1 - 10) == 2 * Pow2(n - 10);
    }
  }

  /** The schedule in numbers: ten yields, then sleeps that double from 10 microseconds to a millisecond. */
  lemma Schedule(n: nat)
    ensures n < 10 ==> WaitAt(n) == Yield
    ensures WaitAt(10) == Sleep(10) && WaitAt(11) == Sleep(20) && WaitAt(12) == Sleep(40) && WaitAt(13) == Sleep(80)
    ensures WaitAt(14) == Sleep(160) && WaitAt(15) == Sleep(320) && WaitAt(16) == Sleep(640)
    ensures 17 <= n ==> WaitAt(n) == Sleep(1000)
  {
    PowersOfTwo();
    if 17 <= n {
      Pow2Grows(7, n - 10);
    }
  }

  lemma PowersOfTwo()
    ensures Pow2(0) == 1 && Pow2(1) == 2 && Pow2(2) == 4 && Pow2(3) == 8
    ensures Pow2(4) == 16 && Pow2(5) == 32 && Pow2(6) == 64 && Pow2(7) == 128
  {
  }

  lemma {:induction false} Pow2Grows(i: nat, j: nat)
    requires i <= j
    ensures Pow2(i) <= Pow2(j)
    decreases j
  {
    if i < j {
      Pow2Grows(i, j - 1);
    }
  }

  // ---------------------------------------------------------------------------
  // The polling loop
  // ---------------------------------------------------------------------------

  /** What the loop observes in one turn: stop_requested(), and if that is false, try_dequeue. */
  datatype Poll = Poll(stop: bool, got: Option<Message>)

  datatype End = StillRunning | StopSeen | Exception

  datatype Work = Work(waits: seq<Wait>, msgs: seq<Message>, end: End)

  /** What the loop does with a sequence of observations, after n empty polls in a row. */
  function Plan(script: seq<Poll>, n: nat, clearNeeded: bool): (w: Work)
    decreases |script|
  {
    if script == [] then Work([], [], StillRunning)
    else if script[0].stop then Work([], [], StopSeen)
    else if script[0].got.None? then
      var rest := Plan(script[1..], n + 1, clearNeeded);
      if |script| == 1 || script[1].stop then rest else rest.(waits := [WaitAt(n)] + rest.waits)
    else
      var m := script[0].got.value;
      if MessageTrace(m, clearNeeded).threw then Work([], [m], Exception)
      else
        var rest := Plan(script[1..], 0, clearNeeded);
        rest.(msgs := [m] + rest.msgs)
  }

  /** The whole plan is what was done so far and then the rest. */
  ghost predicate Continues(whole: Work, waits: seq<Wait>, msgs: seq<Message>, rest: Work) {
    whole == Work(waits + rest.waits, msgs + rest.msgs, rest.end)
  }

  lemma PlanEnds(script: seq<Poll>, i: nat, n: nat, clearNeeded: bool)
    requires i <= |script|
    ensures i == |script| ==> Plan(script[i..], n, clearNeeded) == Work([], [], StillRunning)
    ensures i < |script| && script[i].stop ==> Plan(script[i..], n, clearNeeded) == Work([], [], StopSeen)
  {
  }

  lemma PlanEmpty(whole: Work, waits: seq<Wait>, msgs: seq<Message>, script: seq<Poll>, i: nat, n: nat,
                  clearNeeded: bool)
    requires i < |script| && !script[i].stop && script[i].got.None?
    requires Continues(whole, waits, msgs, Plan(script[i..], n, clearNeeded))
    ensures var more := if i + 1 == |script| || script[i + 1].stop then [] else [WaitAt(n)];
            Continues(whole, waits + more, msgs, Plan(script[i + 1..], n + 1, clearNeeded))
  {
    assert script[i..][1..] == script[i + 1..];
    var rest := Plan(script[i + 1..], n + 1, clearNeeded);
    assert waits + ([WaitAt(n)] + rest.waits) == waits + [WaitAt(n)] + rest.waits;
    assert waits + [] == waits;
  }

  lemma PlanMessage(whole: Work, waits: seq<Wait>, msgs: seq<Message>, script: seq<Poll>, i: nat, n: nat,
                    clearNeeded: bool)
    requires i < |script| && !script[i].stop && script[i].got.Some?
    requires Continues(whole, waits, msgs, Plan(script[i..], n, clearNeeded))
    ensures var m := script[i].got.value;
            if MessageTrace(m, clearNeeded).threw then whole == Work(waits, msgs + [m], Exception)
            else Continues(whole, waits, msgs + [m], Plan(script[i + 1..], 0, clearNeeded))
  {
    assert script[i..][1..] == script[i + 1..];
    var m := script[i].got.value;
    var rest := Plan(script[i + 1..], 0, clearNeeded);
    assert msgs + ([m] + rest.msgs) == msgs + [m] + rest.msgs;
    assert waits + [] == waits;
  }

  /** The inner loop of poll_queue: polls until a message arrives or the loop must end. */
  method AwaitMessage(script: seq<Poll>, start: nat, spinCount: nat, sleepUs: nat, clearNeeded: bool,
                      ghost n: nat, ghost whole: Work, waitsSoFar: seq<Wait>, ghost msgs: seq<Message>)
    returns (i: nat, waits: seq<Wait>, m: Option<Message>, spinCount': nat, sleepUs': nat)
    requires start < |script| && !script[start].stop && Counters(spinCount, sleepUs, n)
    requires Continues(whole, waitsSoFar, msgs, Plan(script[start..], n, clearNeeded))
    ensures m.None? ==> i <= |script| && (i < |script| ==> script[i].stop)
    ensures m.None? ==> whole == Work(waits, msgs, if i == |script| then StillRunning else StopSeen)
    ensures m.Some? ==> start < i <= |script| && Counters(spinCount', sleepUs', n + (i - 1 - start))
    ensures m.Some? ==> if MessageTrace(m.value, clearNeeded).threw
                        then whole == Work(waits, msgs + [m.value], Exception)
                        else Continues(whole, waits, msgs + [m.value], Plan(script[i..], 0, clearNeeded))
  {
    i, waits, spinCount', sleepUs' := start, waitsSoFar, spinCount, sleepUs;
    ghost var k := n;
    while script[i].got.None?
      invariant start <= i < |script| && !script[i].stop && k == n + (i - start)
      invariant Counters(spinCount', sleepUs', k)
      invariant Continues(whole, waits, msgs, Plan(script[i..], k, clearNeeded))
      decreases |script| - i
    {
      PlanEmpty(whole, waits, msgs, script, i, k, clearNeeded);
      i := i + 1;
      k := k + 1;
      if i == |script| || script[i].stop {
        PlanEnds(script, i, k, clearNeeded);
        assert waits + [] == waits && msgs + [] == msgs;
        return i, waits, None, spinCount', sleepUs';
      }
      var w;
      w, spinCount', sleepUs' := AdaptiveBackoff(spinCount', sleepUs', k - 1);
      waits := waits + [w];
    }
    PlanMessage(whole, waits, msgs, script, i, k, clearNeeded);
    return i + 1, waits, script[i].got, spinCount', sleepUs';
  }

  /** std::visit on a dequeued message. */
  method Handle(book: OrderBook, m: Message, clearNeeded: bool, ghost start: Book, ghost msgs: seq<Message>)
    returns (threw: bool)
    requires book.Valid() && book.Model() == ApplyAll(start, msgs, clearNeeded)
    modifies book.Repr()
    ensures book.Valid() && fresh(book.Repr() - old(book.Repr()))
    ensures threw == MessageTrace(m, clearNeeded).threw
    ensures book.Model() == ApplyAll(start, msgs + [m], clearNeeded)
  {
    threw := book.ApplyMessage(m, clearNeeded);
    assert (msgs + [m])[..|msgs|] == msgs;
  }

  /** What holds each time the outer loop is about to test the stop request: the counters are fresh, the book
      is the one after the messages so far, and the rest of the plan is still to come. */
  ghost predicate AtLoopTop(spinCount: nat, sleepUs: nat, book: Book, first: Book, whole: Work, waits: seq<Wait>,
                            msgs: seq<Message>, rest: seq<Poll>, clearNeeded: bool) {
    && Counters(spinCount, sleepUs, 0)
    && book == ApplyAll(first, msgs, clearNeeded)
    && Continues(whole, waits, msgs, Plan(rest, 0, clearNeeded))
  }

  /** One turn of the outer loop of poll_queue; None means that the loop goes on. */
  method Turn(book: OrderBook, clearNeeded: bool, script: seq<Poll>, start: nat, waitsSoFar: seq<Wait>,
              spinCount: nat, sleepUs: nat, ghost whole: Work, ghost first: Book, ghost done: seq<Message>)
    returns (i: nat, waits: seq<Wait>, spinCount': nat, sleepUs': nat, ended: Option<End>, ghost msgs: seq<Message>)
    requires book.Valid() && start < |script| && !script[start].stop
    requires AtLoopTop(spinCount, sleepUs, book.Model(), first, whole, waitsSoFar, done, script[start..], clearNeeded)
    modifies book.Repr()
    ensures book.Valid() && fresh(book.Repr() - old(book.Repr()))
    ensures ended.Some? ==> whole == Work(waits, msgs, ended.value)
                            && book.Model() == ApplyAll(first, msgs, clearNeeded)
    ensures ended.None? ==> start < i <= |script|
                            && AtLoopTop(spinCount', sleepUs', book.Model(), first, whole, waits, msgs, script[i..],
                                         clearNeeded)
  {
    var m;
    i, waits, m, spinCount', sleepUs' :=
      AwaitMessage(script, start, spinCount, sleepUs, clearNeeded, 0, whole, waitsSoFar, done);
    msgs := done;
    if m.None? {
      ended := Some(if i == |script| then StillRunning else StopSeen);
    } else {
      var threw := Handle(book, m.value, clearNeeded, first, done);
      msgs := done + [m.value];
      if threw {
        ended := Some(Exception);
      } else {
        spinCount', sleepUs' := 0, 10;
        ended := None;
      }
    }
  }

  /** poll_queue on a given sequence of observations; StillRunning when the sequence is used up. */
  method PollQueue(book: OrderBook, clearNeeded: bool, script: seq<Poll>)
    returns (waits: seq<Wait>, end: End, ghost msgs: seq<Message>)
    requires book.Valid()
    modifies book.Repr()
    ensures book.Valid() && fresh(book.Repr() - old(book.Repr()))
    ensures Work(waits, msgs, end) == Plan(script, 0, clearNeeded)
    ensures book.Model() == ApplyAll(old(book.Model()), msgs, clearNeeded)
  {
    waits, msgs := [], [];
    ghost var first, whole := book.Model(), Plan(script, 0, clearNeeded);
    assert script[0..] == script;
    var i, spinCount, sleepUs := 0, 0, 10;
    while i < |script| && !script[i].stop
      invariant 0 <= i <= |script|
      invariant book.Valid() && fresh(book.Repr() - old(book.Repr()))
      invariant AtLoopTop(spinCount, sleepUs, book.Model(), first, whole, waits, msgs, script[i..], clearNeeded)
      decreases |script| - i
    {
      var ended;
      i, waits, spinCount, sleepUs, ended, msgs :=
        Turn(book, clearNeeded, script, i, waits, spinCount, sleepUs, whole, first, msgs);
      if ended.Some? {
        return waits, ended.value, msgs;
      }
    }
    PlanEnds(script, i, 0, clearNeeded);
    end := if i == |script| then StillRunning else StopSeen;
    PlanOver(whole, waits, msgs, end);
  }

  lemma PlanOver(whole: Work, waits: seq<Wait>, msgs: seq<Message>, end: End)
    requires Continues(whole, waits, msgs, Work([], [], end))
    ensures whole == Work(waits, msgs, end)
  {
  }

  // ---------------------------------------------------------------------------
  // What the loop guarantees
  // ---------------------------------------------------------------------------

  /** How many observations the loop makes before it ends. */
  function Used(script: seq<Poll>, clearNeeded: bool): (n: nat)
    decreases |script|
  {
    if script == [] || script[0].stop then 0
    else if script[0].got.Some? && MessageTrace(script[0].got.value, clearNeeded).threw then 1
    else 1 + Used(script[1..], clearNeeded)
  }

  /** How many polls in a row came back empty just before poll i. */
  function Streak(script: seq<Poll>, i: nat): (n: nat)
    requires i <= |script|
  {
    if i == 0 || script[i - 1].got.Some? then 0 else 1 + Streak(script, i - 1)
  }

  /** What poll j adds to the waits: after an empty one, unless the loop ends there, the wait that the length
      of its streak calls for. */
  function WaitOf(script: seq<Poll>, j: nat): (ws: seq<Wait>)
    requires j < |script|
  {
    if script[j].got.None? && j + 1 < |script| && !script[j + 1].stop then [WaitAt(Streak(script, j))] else []
  }

  /** The waits of the first k polls. */
  function WaitsUpTo(script: seq<Poll>, k: nat): (ws: seq<Wait>)
    requires k <= |script|
  {
    if k == 0 then [] else WaitsUpTo(script, k - 1) + WaitOf(script, k - 1)
  }

  /** The loop makes no further turn after coming to poll j. */
  predicate EndsAt(script: seq<Poll>, j: nat, clearNeeded: bool)
    requires j <= |script|
  {
    j == |script| || script[j].stop || (script[j].got.Some? && MessageTrace(script[j].got.value, clearNeeded).threw)
  }

  lemma LastPoll(script: seq<Poll>, j: nat, clearNeeded: bool)
    requires j <= |script| && EndsAt(script, j, clearNeeded)
    ensures Plan(script[j..], Streak(script, j), clearNeeded).waits == []
    ensures var k := j + Used(script[j..], clearNeeded);
            k <= |script| && WaitsUpTo(script, k) == WaitsUpTo(script, j)
  {
    assert WaitsUpTo(script, j) + [] == WaitsUpTo(script, j);
  }

  lemma OnePoll(script: seq<Poll>, j: nat, clearNeeded: bool)
    requires j < |script| && !EndsAt(script, j, clearNeeded)
    ensures Used(script[j..], clearNeeded) == 1 + Used(script[j + 1..], clearNeeded)
    ensures Plan(script[j..], Streak(script, j), clearNeeded).waits
            == WaitOf(script, j) + Plan(script[j + 1..], Streak(script, j + 1), clearNeeded).waits
  {
    assert script[j..][1..] == script[j + 1..];
    var rest := Plan(script[j + 1..], Streak(script, j + 1), clearNeeded).waits;
    assert [] + rest == rest;
  }

  lemma Chain<T>(whole: seq<T>, init: seq<T>, start: seq<T>, x: seq<T>, tail: seq<T>)
    requires whole == init + tail && init == start + x
    ensures whole == start + (x + tail)
  {
  }

  lemma OneMore(script: seq<Poll>, j: nat, k: nat, tail: seq<Wait>)
    requires j < k <= |script| && WaitsUpTo(script, k) == WaitsUpTo(script, j + 1) + tail
    ensures WaitsUpTo(script, k) == WaitsUpTo(script, j) + (WaitOf(script, j) + tail)
  {
    Chain(WaitsUpTo(script, k), WaitsUpTo(script, j + 1), WaitsUpTo(script, j), WaitOf(script, j), tail);
  }

  /** From poll j on, the loop waits as the plan says. */
  lemma {:induction false} WaitsFrom(script: seq<Poll>, j: nat, clearNeeded: bool) returns (k: nat, rest: seq<Wait>)
    requires j <= |script|
    ensures k == j + Used(script[j..], clearNeeded) && k <= |script|
    ensures rest == Plan(script[j..], Streak(script, j), clearNeeded).waits
    ensures WaitsUpTo(script, k) == WaitsUpTo(script, j) + rest
    decreases |script| - j
  {
    if EndsAt(script, j, clearNeeded) {
      k, rest := j + Used(script[j..], clearNeeded), [];
      LastPoll(script, j, clearNeeded);
    } else {
      var tail;
      k, tail := WaitsFrom(script, j + 1, clearNeeded);
      rest := WaitOf(script, j) + tail;
      OnePoll(script, j, clearNeeded);
      OneMore(script, j, k, tail);
    }
  }

  /** Every run of the loop waits by the schedule: the n-th empty poll in a row, counted from 0, is followed
      by WaitAt(n), and a message starts the count again. */
  lemma WaitsFollowSchedule(script: seq<Poll>, clearNeeded: bool)
    ensures Used(script, clearNeeded) <= |script|
    ensures Plan(script, 0, clearNeeded).waits == WaitsUpTo(script, Used(script, clearNeeded))
  {
    var k, waits := WaitsFrom(script, 0, clearNeeded);
    assert script[0..] == script && [] + waits == waits;
  }

  /** The messages that try_dequeue returned. */
  function Dequeued(script: seq<Poll>): (ms: seq<Message>)
    decreases |script|
  {
    if script == [] then []
    else (if script[0].got.Some? then [script[0].got.value] else []) + Dequeued(script[1..])
  }

  /** The loop handles every message it dequeues, in order, and makes observations until a stop request
      or an exception. */
  lemma {:induction false} HandlesAllDequeued(script: seq<Poll>, n: nat, clearNeeded: bool)
    ensures var used := Used(script, clearNeeded);
            && used <= |script|
            && Plan(script, n, clearNeeded).msgs == Dequeued(script[..used])
            && (Plan(script, n, clearNeeded).end.StillRunning? ==> used == |script|)
            && (Plan(script, n, clearNeeded).end.StopSeen? ==> used < |script| && script[used].stop)
    decreases |script|
  {
    if script == [] || script[0].stop {
    } else if script[0].got.Some? && MessageTrace(script[0].got.value, clearNeeded).threw {
      assert script[..1] == [script[0]] && Dequeued([script[0]]) == [script[0].got.value] + Dequeued([]);
    } else {
      HandlesAllDequeued(script[1..], if script[0].got.None? then n + 1 else 0, clearNeeded);
      var used := Used(script, clearNeeded);
      assert script[..used][1..] == script[1..][..used - 1];
    }
  }

  /** It ends by an exception exactly when the last message it took throws; no earlier one does. */
  lemma {:induction false} OnlyTheLastThrows(script: seq<Poll>, n: nat, clearNeeded: bool, i: nat)
    requires i < |Plan(script, n, clearNeeded).msgs|
    ensures var w := Plan(script, n, clearNeeded);
            MessageTrace(w.msgs[i], clearNeeded).threw <==> i == |w.msgs| - 1 && w.end.Exception?
    decreases |script|
  {
    if script[0].got.None? {
      OnlyTheLastThrows(script[1..], n + 1, clearNeeded, i);
    } else if !MessageTrace(script[0].got.value, clearNeeded).threw {
      if i > 0 {
        OnlyTheLastThrows(script[1..], 0, clearNeeded, i - 1);
      } else {
        ExceptionHasMessage(script[1..], 0, clearNeeded);
      }
    }
  }

  lemma {:induction false} ExceptionHasMessage(script: seq<Poll>, n: nat, clearNeeded: bool)
    ensures Plan(script, n, clearNeeded).end.Exception? ==> Plan(script, n, clearNeeded).msgs != []
    decreases |script|
  {
    if script != [] && !script[0].stop && script[0].got.None? {
      ExceptionHasMessage(script[1..], n + 1, clearNeeded);
    }
  }
}
