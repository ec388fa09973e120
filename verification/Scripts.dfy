// The polling loop inside the state machine: in every run the worker makes the observations of a script,
// and it handles what the plan of the loop says for that script.
module Scripts {
  import opened Book
  import opened Pipeline
  import opened Workers
  import opened Wrappers

  /** What the polling loop observes in an event: a dequeued message, an empty queue, or a stop request. */
  function Observed(s: State, ev: Event): (ps: seq<Poll>)
    requires ev.Dequeue? ==> ev.k < |s.orders|
  {
    match ev
    case Dequeue(k) => [Poll(false, Some(s.orders[k].msg))]
    case Miss => [Poll(false, None)]
    case CheckStop => if s.stop then [Poll(true, None)] else []
    case _ => []
  }

  /** The observations of the worker in a run. */
  ghost function Script(u: Setup, evs: seq<Event>): (script: seq<Poll>)
    decreases |evs|
  {
    if evs == [] then []
    else
      var init, ev := evs[..|evs| - 1], evs[|evs| - 1];
      Script(u, init) + (if Enabled(Run(u, init), ev) then Observed(Run(u, init), ev) else [])
  }

  /** One more observation of a loop that is still running. */
  lemma {:induction false} PlanGrows(script: seq<Poll>, p: Poll, n: nat, clearNeeded: bool)
    requires Plan(script, n, clearNeeded).end.StillRunning?
    ensures Plan(script + [p], n, clearNeeded).msgs
            == Plan(script, n, clearNeeded).msgs + (if !p.stop && p.got.Some? then [p.got.value] else [])
    ensures Plan(script + [p], n, clearNeeded).end
            == if p.stop then StopSeen
               else if p.got.Some? && MessageTrace(p.got.value, clearNeeded).threw then Exception
               else StillRunning
    decreases |script|
  {
    var longer := script + [p];
    if script == [] {
      assert longer == [p] && [p][1..] == [];
      assert Plan([], 0, clearNeeded) == Plan([], n + 1, clearNeeded) == Work([], [], StillRunning);
    } else {
      assert longer[0] == script[0] && longer[1..] == script[1..] + [p];
      PlanGrows(script[1..], p, if script[0].got.None? then n + 1 else 0, clearNeeded);
    }
  }

  /** How the loop stands in a state: ended by the stop request, or by the message it took last, or running. */
  function EndIn(u: Setup, s: State): (e: End) {
    if s.pc.Stopped? then StopSeen
    else if s.taken != [] && MessageTrace(Current(s), u.clearNeeded).threw then Exception
    else StillRunning
  }

  ghost predicate AsPlanned(u: Setup, s: State, w: Work) {
    w.msgs == Msgs(s.taken) && w.end == EndIn(u, s)
  }

  lemma MsgsGrow(taken: seq<Envelope>, e: Envelope)
    ensures Msgs(taken + [e]) == Msgs(taken) + [e.msg]
  {
  }

  /** Between two messages the loop is running. */
  lemma RunsBetween(u: Setup, s: State)
    requires Safe(u, s) && (s.pc.LoopTop? || s.pc.Polling? || s.pc.Missed?)
    ensures EndIn(u, s) == StillRunning
  {
  }

  lemma ObservedAsPlanned(u: Setup, s: State, ev: Event, script: seq<Poll>)
    requires Safe(u, s) && Enabled(s, ev) && Observed(s, ev) != []
    requires AsPlanned(u, s, Plan(script, 0, u.clearNeeded))
    ensures AsPlanned(u, Next(u, s, ev), Plan(script + Observed(s, ev), 0, u.clearNeeded))
  {
    RunsBetween(u, s);
    PlanGrows(script, Observed(s, ev)[0], 0, u.clearNeeded);
    assert Observed(s, ev) == [Observed(s, ev)[0]];
    if ev.Dequeue? {
      MsgsGrow(s.taken, s.orders[ev.k]);
    }
  }

  lemma UnobservedAsPlanned(u: Setup, s: State, ev: Event, w: Work)
    requires Safe(u, s) && Enabled(s, ev) && Observed(s, ev) == []
    requires AsPlanned(u, s, w)
    ensures AsPlanned(u, Next(u, s, ev), w)
  {
  }

  /** In every run the worker has taken exactly the messages that the plan for its observations handles, and it
      has ended as planned. */
  lemma {:induction false} WorkerFollowsPlan(u: Setup, evs: seq<Event>)
    ensures var s, w := Run(u, evs), Plan(Script(u, evs), 0, u.clearNeeded);
            w.msgs == Msgs(s.taken) && w.end == EndIn(u, s)
    decreases |evs|
  {
    if evs != [] {
      var init, ev := evs[..|evs| - 1], evs[|evs| - 1];
      var s := Run(u, init);
      WorkerFollowsPlan(u, init);
      if Enabled(s, ev) && Observed(s, ev) != [] {
        ObservedAsPlanned(u, s, ev, Script(u, init));
      } else {
        assert Script(u, init) + [] == Script(u, init);
        if Enabled(s, ev) {
          UnobservedAsPlanned(u, s, ev, Plan(Script(u, init), 0, u.clearNeeded));
        }
      }
    }
  }

  lemma AllTaken(u: Setup, s: State)
    requires Safe(u, s) && !s.pc.Visiting? && !s.pc.Inside?
    ensures s.book == ApplyAll(u.book, Msgs(s.taken), u.clearNeeded)
  {
    assert s.taken[..|s.taken|] == s.taken;
    if s.pc.Dead? {
      BookAfterStep(u, s.taken, s.completed);
    }
  }

  /** Unless a message is in the worker's hands, the book is the one that poll_queue leaves after these
      observations. */
  lemma WorkerBookAsPlanned(u: Setup, evs: seq<Event>)
    requires !Run(u, evs).pc.Visiting? && !Run(u, evs).pc.Inside?
    ensures Run(u, evs).book == ApplyAll(u.book, Plan(Script(u, evs), 0, u.clearNeeded).msgs, u.clearNeeded)
  {
    WorkerFollowsPlan(u, evs);
    AllTaken(u, Run(u, evs));
  }
}
