// The whole run in closed form, stated in the terms of the FIX messages rather than of map operations:
// the last thing that happened to a price level decides it.
module ClosedForm {
  import opened Book
  import opened BookLaws
  import opened Messages
  import opened Snapshots
  import opened Symbols
  import opened Ticks
  import opened Wrappers

  /** The things that can happen to a book: an accepted full refresh begins, it lists a level, or an
      increment entry, its symbol written out, is applied. */
  datatype Happening = Refresh | Listed(level: SnapshotEntry) | Updated(entry: IncrementEntry)

  datatype Effect = Keeps | Removes | Sets(sz: nat)

  /** The FIX entry type of a side. */
  function TypeOf(s: Side): (t: char) {
    if s == Bid then '0' else '1'
  }

  predicate About(px: Option<WirePx>, p: nat) {
    px.Some? && ToUint64(px.value, 100) == p
  }

  /** What a happening does to the level at price p on side s. */
  function EffectOf(h: Happening, clearNeeded: bool, s: Side, p: nat): (e: Effect) {
    match h
    case Refresh => Removes
    case Listed(e) =>
      if e.entryType == Some(TypeOf(s)) && About(e.px, p) && e.sz.Some? then Sets(ToUint64(e.sz.value, 100_000))
      else Keeps
    case Updated(e) =>
      if e.symbol.None? || FromStr(e.symbol.value) != Some(BTCUSDT) || e.entryType != Some(TypeOf(s)) then Keeps
      else if e.px.None? then Keeps
      else if e.action == Action('2') then (if About(e.px, p) then Removes else Keeps)
      else if e.action == Action('0') || e.action == Action('1') then
        if About(e.px, p) && e.sz.Some? then Sets(ToUint64(e.sz.value, 100_000))
        else if e.action == Action('1') && clearNeeded then Removes
        else Keeps
      else Keeps
  }

  /** Whether a happening ends in an exception, because of a field that is absent or unreadable. */
  predicate Throws(h: Happening) {
    match h
    case Refresh => false
    case Listed(e) => e.entryType.None? || e.px.None? || e.sz.None?
    case Updated(e) =>
      || e.symbol.None? || FromStr(e.symbol.value).None?
      || (FromStr(e.symbol.value) == Some(BTCUSDT)
          && (|| e.entryType.None? || e.action.NoAction?
              || (e.entryType.value in {'0', '1'}
                  && (|| e.px.None? || e.action.BadAction?
                      || (e.action.value in {'0', '1'} && e.sz.None?)))))
  }

  /** The happenings up to and including the first that throws. */
  function UpToThrow(hs: seq<Happening>): (r: seq<Happening>)
    decreases |hs|
  {
    if hs == [] then []
    else if Throws(hs[0]) then [hs[0]]
    else [hs[0]] + UpToThrow(hs[1..])
  }

  function Applied(e: Effect, before: Option<nat>): (after: Option<nat>) {
    match e
    case Keeps => before
    case Removes => None
    case Sets(sz) => Some(sz)
  }

  /** How many entries the loop reaches. */
  function Reached(m: Message): (n: nat)
    requires m.count.Some?
  {
    var all := if m.Snapshot? then |m.groups| else |m.entries|;
    if m.count.value < 0 then 0 else if m.count.value < all then m.count.value else all
  }

  /** What is in store for the book when the message starts. */
  function Pending(m: Message): (hs: seq<Happening>) {
    if m.Increment? then
      if m.count.None? then []
      else seq(Reached(m), i requires 0 <= i < Reached(m) => Updated(Explicit(m.entries)[i]))
    else if !Accepted(m) then []
    else if m.count.None? then [Refresh]
    else [Refresh] + seq(Reached(m), i requires 0 <= i < Reached(m) => Listed(m.groups[i]))
  }

  /** What happens to the book in a message, the throwing entry, if there is one, included. */
  function Happenings(m: Message): (hs: seq<Happening>) {
    UpToThrow(Pending(m))
  }

  /** What happens in a stream of messages. */
  function History(ms: seq<Message>): (hs: seq<Happening>)
    decreases |ms|
  {
    if ms == [] then [] else History(ms[..|ms| - 1]) + Happenings(ms[|ms| - 1])
  }

  /** i is the last happening that touches price p of side s, or -1 if there is none. */
  ghost predicate LastTouch(hs: seq<Happening>, clearNeeded: bool, s: Side, p: nat, i: int) {
    && -1 <= i < |hs|
    && (0 <= i ==> !EffectOf(hs[i], clearNeeded, s, p).Keeps?)
    && forall j :: i < j < |hs| ==> EffectOf(hs[j], clearNeeded, s, p).Keeps?
  }

  // ---------------------------------------------------------------------------
  // One happening
  // ---------------------------------------------------------------------------

  function OpsOf(h: Happening, clearNeeded: bool): (t: Trace) {
    match h
    case Refresh => Trace([Wipe(Bid), Wipe(Ask)], false)
    case Listed(e) => SnapshotEntryTrace(e)
    case Updated(e) => EntryTrace(e, clearNeeded)
  }

  lemma RefreshEffect(b: Book, s: Side, p: nat)
    ensures Level(DoAll(b, [Wipe(Bid), Wipe(Ask)]), s, p) == None
  {
    DoTwo(b, Wipe(Bid), Wipe(Ask));
  }

  lemma ListedEffect(b: Book, e: SnapshotEntry, clearNeeded: bool, s: Side, p: nat)
    ensures Level(DoAll(b, SnapshotEntryTrace(e).ops), s, p)
            == Applied(EffectOf(Listed(e), clearNeeded, s, p), Level(b, s, p))
  {
    var ops := SnapshotEntryTrace(e).ops;
    if ops != [] {
      DoOne(b, ops[0]);
      LevelAfterOp(b, ops[0], s, p);
    }
  }

  lemma OneOpEffect(b: Book, e: IncrementEntry, clearNeeded: bool, s: Side, p: nat)
    requires |EntryTrace(e, clearNeeded).ops| == 1
    ensures Level(Do(b, EntryTrace(e, clearNeeded).ops[0]), s, p)
            == Applied(EffectOf(Updated(e), clearNeeded, s, p), Level(b, s, p))
  {
    LevelAfterOp(b, EntryTrace(e, clearNeeded).ops[0], s, p);
  }

  lemma TwoOpsEffect(b: Book, e: IncrementEntry, clearNeeded: bool, s: Side, p: nat)
    requires |EntryTrace(e, clearNeeded).ops| == 2
    ensures var ops := EntryTrace(e, clearNeeded).ops;
            Level(Do(Do(b, ops[0]), ops[1]), s, p) == Applied(EffectOf(Updated(e), clearNeeded, s, p), Level(b, s, p))
  {
    var ops := EntryTrace(e, clearNeeded).ops;
    LevelAfterOp(b, ops[0], s, p);
    LevelAfterOp(Do(b, ops[0]), ops[1], s, p);
  }

  lemma NoOpEffect(e: IncrementEntry, clearNeeded: bool, s: Side, p: nat)
    requires EntryTrace(e, clearNeeded).ops == []
    ensures EffectOf(Updated(e), clearNeeded, s, p) == Keeps
  {
  }

  lemma UpdatedEffect(b: Book, e: IncrementEntry, clearNeeded: bool, s: Side, p: nat)
    ensures Level(DoAll(b, EntryTrace(e, clearNeeded).ops), s, p)
            == Applied(EffectOf(Updated(e), clearNeeded, s, p), Level(b, s, p))
  {
    var ops := EntryTrace(e, clearNeeded).ops;
    if ops == [] {
      NoOpEffect(e, clearNeeded, s, p);
    } else if |ops| == 1 {
      DoOne(b, ops[0]);
      assert ops == [ops[0]];
      OneOpEffect(b, e, clearNeeded, s, p);
    } else {
      assert ops == [ops[0], ops[1]];
      DoTwo(b, ops[0], ops[1]);
      TwoOpsEffect(b, e, clearNeeded, s, p);
    }
  }

  lemma HappeningEffect(b: Book, h: Happening, clearNeeded: bool, s: Side, p: nat)
    ensures Level(DoAll(b, OpsOf(h, clearNeeded).ops), s, p)
            == Applied(EffectOf(h, clearNeeded, s, p), Level(b, s, p))
  {
    match h
    case Refresh => RefreshEffect(b, s, p);
    case Listed(e) => ListedEffect(b, e, clearNeeded, s, p);
    case Updated(e) => UpdatedEffect(b, e, clearNeeded, s, p);
  }

  lemma ThrowsIff(h: Happening, clearNeeded: bool)
    ensures Throws(h) <==> OpsOf(h, clearNeeded).threw
  {
  }

  // ---------------------------------------------------------------------------
  // A message is its happenings
  // ---------------------------------------------------------------------------

  function HistoryOps(hs: seq<Happening>, clearNeeded: bool): (ops: seq<Op>)
    decreases |hs|
  {
    if hs == [] then [] else OpsOf(hs[0], clearNeeded).ops + HistoryOps(hs[1..], clearNeeded)
  }

  lemma {:induction false} HistoryOpsConcat(xs: seq<Happening>, ys: seq<Happening>, clearNeeded: bool)
    ensures HistoryOps(xs + ys, clearNeeded) == HistoryOps(xs, clearNeeded) + HistoryOps(ys, clearNeeded)
    decreases |xs|
  {
    if xs == [] {
      assert xs + ys == ys;
    } else {
      assert (xs + ys)[1..] == xs[1..] + ys;
      HistoryOpsConcat(xs[1..], ys, clearNeeded);
    }
  }

  lemma OneHappening(h: Happening, clearNeeded: bool)
    ensures HistoryOps([h], clearNeeded) == OpsOf(h, clearNeeded).ops
  {
    var ops := OpsOf(h, clearNeeded).ops;
    assert HistoryOps([h], clearNeeded) == ops + HistoryOps([], clearNeeded);
    assert ops + [] == ops;
  }

  /** The operations up to a throw, one happening at a time. */
  lemma UpToThrowOps(hs: seq<Happening>, clearNeeded: bool)
    requires hs != []
    ensures HistoryOps(UpToThrow(hs), clearNeeded)
            == if OpsOf(hs[0], clearNeeded).threw then OpsOf(hs[0], clearNeeded).ops
               else OpsOf(hs[0], clearNeeded).ops + HistoryOps(UpToThrow(hs[1..]), clearNeeded)
  {
    ThrowsIff(hs[0], clearNeeded);
    OneHappening(hs[0], clearNeeded);
    HistoryOpsConcat([hs[0]], UpToThrow(hs[1..]), clearNeeded);
  }

  lemma {:induction false} FoldIsHistory(es: seq<IncrementEntry>, hs: seq<Happening>, missing: bool, clearNeeded: bool)
    requires |hs| == |es| && forall i :: 0 <= i < |es| ==> hs[i] == Updated(es[i])
    ensures HistoryOps(UpToThrow(hs), clearNeeded) == Fold(es, missing, clearNeeded).ops
    decreases |es|
  {
    if es != [] {
      UpToThrowOps(hs, clearNeeded);
      FoldIsHistory(es[1..], hs[1..], missing, clearNeeded);
    }
  }

  lemma IncrementIsHistory(m: Message, clearNeeded: bool)
    requires m.Increment?
    ensures HistoryOps(Happenings(m), clearNeeded) == MessageTrace(m, clearNeeded).ops
  {
    if m.count.Some? {
      IncrementIsFold(m, clearNeeded);
      FoldIsHistory(Explicit(m.entries)[..|Visible(m)|], Pending(m), Overrun(m), clearNeeded);
    } else {
      assert TraceFrom(m, Threw, clearNeeded).ops == [];
    }
  }

  /** One group of a snapshot, and then the rest. */
  lemma GroupStep(m: Message, i: nat, clearNeeded: bool)
    requires m.Snapshot? && m.count.Some? && i < Reached(m)
    ensures var t, rest := SnapshotEntryTrace(m.groups[i]), TraceFrom(m, At(i + 1, None), clearNeeded);
            TraceFrom(m, At(i, None), clearNeeded) == if t.threw then t else Trace(t.ops + rest.ops, rest.threw)
  {
    var t := SnapshotEntryTrace(m.groups[i]);
    assert t.ops + [] == t.ops;
    assert Step(m, At(i, None), clearNeeded) == Move(t.ops, if t.threw then Threw else At(i + 1, None));
    assert TraceFrom(m, Threw, clearNeeded) == Trace([], true);
  }

  /** After its last group a snapshot ends, by an exception if it announced more groups than it has. */
  lemma ListingEnds(m: Message, clearNeeded: bool)
    requires m.Snapshot? && m.count.Some?
    ensures TraceFrom(m, At(Reached(m), None), clearNeeded) == Trace([], |m.groups| < m.count.value)
  {
    var v := Step(m, At(Reached(m), None), clearNeeded);
    assert v == Move([], if |m.groups| < m.count.value then Threw else Done);
    assert TraceFrom(m, v.next, clearNeeded) == Trace([], v.next.Threw?);
  }

  lemma {:induction false} ListingIsHistory(m: Message, i: nat, hs: seq<Happening>, clearNeeded: bool)
    requires m.Snapshot? && m.count.Some? && i <= Reached(m)
    requires |hs| == Reached(m) - i && forall k :: 0 <= k < |hs| ==> hs[k] == Listed(m.groups[i + k])
    ensures HistoryOps(UpToThrow(hs), clearNeeded) == TraceFrom(m, At(i, None), clearNeeded).ops
    decreases Reached(m) - i
  {
    if i == Reached(m) {
      ListingEnds(m, clearNeeded);
    } else {
      assert hs[0] == Listed(m.groups[i]);
      UpToThrowOps(hs, clearNeeded);
      GroupStep(m, i, clearNeeded);
      ListingIsHistory(m, i + 1, hs[1..], clearNeeded);
    }
  }

  lemma AcceptedIsHistory(m: Message, clearNeeded: bool)
    requires Accepted(m)
    ensures HistoryOps(Happenings(m), clearNeeded) == MessageTrace(m, clearNeeded).ops
  {
    AcceptedClears(m, clearNeeded);
    UpToThrowOps(Pending(m), clearNeeded);
    if m.count.Some? {
      var hs := Pending(m)[1..];
      assert Step(m, Begin, clearNeeded).next == At(0, None);
      ListingIsHistory(m, 0, hs, clearNeeded);
    } else {
      assert TraceFrom(m, Threw, clearNeeded).ops == [];
    }
  }

  lemma MessageIsHistory(m: Message, clearNeeded: bool)
    ensures HistoryOps(Happenings(m), clearNeeded) == MessageTrace(m, clearNeeded).ops
  {
    if m.Increment? {
      IncrementIsHistory(m, clearNeeded);
    } else if Accepted(m) {
      AcceptedIsHistory(m, clearNeeded);
    } else {
      var next := Step(m, Begin, clearNeeded).next;
      assert TraceFrom(m, next, clearNeeded).ops == [];
    }
  }

  lemma {:induction false} StreamIsHistory(ms: seq<Message>, clearNeeded: bool)
    ensures HistoryOps(History(ms), clearNeeded) == StreamOps(ms, clearNeeded)
    decreases |ms|
  {
    if ms != [] {
      var init, last := ms[..|ms| - 1], ms[|ms| - 1];
      StreamIsHistory(init, clearNeeded);
      MessageIsHistory(last, clearNeeded);
      HistoryOpsConcat(History(init), Happenings(last), clearNeeded);
    }
  }

  // ---------------------------------------------------------------------------
  // The run
  // ---------------------------------------------------------------------------

  lemma LastHappening(b: Book, hs: seq<Happening>, clearNeeded: bool, s: Side, p: nat)
    requires hs != []
    ensures var k := |hs| - 1;
            Level(DoAll(b, HistoryOps(hs, clearNeeded)), s, p)
            == Applied(EffectOf(hs[k], clearNeeded, s, p), Level(DoAll(b, HistoryOps(hs[..k], clearNeeded)), s, p))
  {
    var k := |hs| - 1;
    assert hs == hs[..k] + [hs[k]];
    HistoryOpsConcat(hs[..k], [hs[k]], clearNeeded);
    OneHappening(hs[k], clearNeeded);
    DoAllConcat(b, HistoryOps(hs[..k], clearNeeded), OpsOf(hs[k], clearNeeded).ops);
    HappeningEffect(DoAll(b, HistoryOps(hs[..k], clearNeeded)), hs[k], clearNeeded, s, p);
  }

  lemma {:induction false} LastTouchDecides(b: Book, hs: seq<Happening>, clearNeeded: bool, s: Side, p: nat, i: int)
    requires LastTouch(hs, clearNeeded, s, p, i)
    ensures Level(DoAll(b, HistoryOps(hs, clearNeeded)), s, p)
            == if i < 0 then Level(b, s, p) else Applied(EffectOf(hs[i], clearNeeded, s, p), None)
    decreases |hs|
  {
    if hs != [] {
      var k := |hs| - 1;
      LastHappening(b, hs, clearNeeded, s, p);
      if i < k {
        assert EffectOf(hs[k], clearNeeded, s, p).Keeps?;
        LastTouchDecides(b, hs[..k], clearNeeded, s, p, i);
      }
    }
  }

  /** After any stream, the level at a price is what the last happening that touches it made of it, and what it
      was at the start if none does. A message that throws counts up to its throwing entry. */
  lemma LevelDecidedByLastHappening(b: Book, ms: seq<Message>, clearNeeded: bool, s: Side, p: nat, i: int)
    requires LastTouch(History(ms), clearNeeded, s, p, i)
    ensures Level(ApplyAll(b, ms, clearNeeded), s, p)
            == if i < 0 then Level(b, s, p) else Applied(EffectOf(History(ms)[i], clearNeeded, s, p), None)
  {
    StreamIsItsOps(b, ms, clearNeeded);
    StreamIsHistory(ms, clearNeeded);
    LastTouchDecides(b, History(ms), clearNeeded, s, p, i);
  }

  // ---------------------------------------------------------------------------
  // Messages that throw
  // ---------------------------------------------------------------------------

  /** The snapshot with its first i groups only. */
  function FirstGroups(m: Message, i: nat): (r: Message)
    requires m.Snapshot?
  {
    Snapshot(m.symbol, Some(i), m.groups)
  }

  /** Up to group i, the snapshot does what it would do if it ended there. */
  lemma {:induction false} ListingUpTo(m: Message, j: nat, i: nat, clearNeeded: bool)
    requires m.Snapshot? && m.count.Some? && j <= i <= Reached(m)
    requires forall k :: j <= k < i ==> !SnapshotEntryTrace(m.groups[k]).threw
    ensures var short := TraceFrom(FirstGroups(m, i), At(j, None), clearNeeded);
            var rest := TraceFrom(m, At(i, None), clearNeeded);
            && !short.threw
            && TraceFrom(m, At(j, None), clearNeeded) == Trace(short.ops + rest.ops, rest.threw)
    decreases i - j
  {
    var n := FirstGroups(m, i);
    if j == i {
      ListingEnds(n, clearNeeded);
      var rest := TraceFrom(m, At(i, None), clearNeeded);
      assert [] + rest.ops == rest.ops;
    } else {
      GroupStep(m, j, clearNeeded);
      GroupStep(n, j, clearNeeded);
      ListingUpTo(m, j + 1, i, clearNeeded);
      Regroup(SnapshotEntryTrace(m.groups[j]).ops, TraceFrom(n, At(j + 1, None), clearNeeded).ops,
              TraceFrom(m, At(i, None), clearNeeded).ops);
    }
  }

  /** If group i of an accepted snapshot is the first to throw, or the first that is announced but absent, the
      book holds exactly what the groups before it list. */
  lemma SnapshotThrowKeepsPrefix(b: Book, m: Message, i: nat, clearNeeded: bool)
    requires Accepted(m) && m.count.Some? && i <= |m.groups| && i < m.count.value
    requires forall k :: 0 <= k < i ==> !Throws(Listed(m.groups[k]))
    requires i < |m.groups| ==> Throws(Listed(m.groups[i]))
    ensures var before := Apply(b, FirstGroups(m, i), clearNeeded);
            !before.threw && Apply(b, m, clearNeeded) == Outcome(before.book, true)
  {
    var n := FirstGroups(m, i);
    forall k | 0 <= k < i
      ensures !SnapshotEntryTrace(m.groups[k]).threw
    {
      ThrowsIff(Listed(m.groups[k]), clearNeeded);
    }
    ListingUpTo(m, 0, i, clearNeeded);
    if i < |m.groups| {
      ThrowsIff(Listed(m.groups[i]), clearNeeded);
      GroupStep(m, i, clearNeeded);
    } else {
      ListingEnds(m, clearNeeded);
    }
    var ops := TraceFrom(n, At(0, None), clearNeeded).ops;
    assert ops + [] == ops;
    AcceptedClears(m, clearNeeded);
    AcceptedClears(n, clearNeeded);
  }

  /** A message whose NoMDEntries is missing throws: an increment before touching the book, an accepted snapshot
      after emptying it. */
  lemma MissingCount(b: Book, m: Message, clearNeeded: bool)
    requires m.count.None? && (m.Increment? || Accepted(m))
    ensures Apply(b, m, clearNeeded) == Outcome(if m.Snapshot? then EMPTY_BOOK else b, true)
  {
    assert TraceFrom(m, Threw, clearNeeded) == Trace([], true);
    if m.Snapshot? {
      AcceptedClears(m, clearNeeded);
      assert [Wipe(Bid), Wipe(Ask)] + [] == [Wipe(Bid), Wipe(Ask)];
      DoTwo(b, Wipe(Bid), Wipe(Ask));
    } else {
      assert MessageTrace(m, clearNeeded).ops == [];
    }
  }

  lemma {:induction false} FoldThrewIff(es: seq<IncrementEntry>, missing: bool, clearNeeded: bool)
    ensures Fold(es, missing, clearNeeded).threw <==> missing || exists i :: 0 <= i < |es| && Throws(Updated(es[i]))
    decreases |es|
  {
    if es != [] {
      ThrowsIff(Updated(es[0]), clearNeeded);
      FoldThrewIff(es[1..], missing, clearNeeded);
      if i :| 0 <= i < |es| && Throws(Updated(es[i])) {
        assert i > 0 ==> es[1..][i - 1] == es[i];
      }
    }
  }

  lemma IncrementThrowsIff(m: Message, clearNeeded: bool)
    requires m.Increment? && m.count.Some?
    ensures MessageTrace(m, clearNeeded).threw
            <==> Overrun(m) || exists i :: 0 <= i < |Pending(m)| && Throws(Pending(m)[i])
  {
    var es := Explicit(m.entries)[..|Visible(m)|];
    IncrementIsFold(m, clearNeeded);
    FoldThrewIff(es, Overrun(m), clearNeeded);
    if i :| 0 <= i < |es| && Throws(Updated(es[i])) {
      assert Pending(m)[i] == Updated(es[i]);
    }
    if i :| 0 <= i < |Pending(m)| && Throws(Pending(m)[i]) {
      assert Pending(m)[i] == Updated(es[i]);
    }
  }

  lemma {:induction false} ListingThrewIff(m: Message, i: nat, clearNeeded: bool)
    requires m.Snapshot? && m.count.Some? && i <= Reached(m)
    ensures TraceFrom(m, At(i, None), clearNeeded).threw
            <==> |m.groups| < m.count.value || exists k :: i <= k < Reached(m) && Throws(Listed(m.groups[k]))
    decreases Reached(m) - i
  {
    if i == Reached(m) {
      ListingEnds(m, clearNeeded);
    } else {
      ThrowsIff(Listed(m.groups[i]), clearNeeded);
      GroupStep(m, i, clearNeeded);
      ListingThrewIff(m, i + 1, clearNeeded);
    }
  }

  /** Exactly when a message that concerns the book throws: NoMDEntries is missing or announces too many entries,
      or a field that an entry needs is absent or unreadable. */
  lemma MessageThrowsIff(m: Message, clearNeeded: bool)
    requires m.Increment? || Accepted(m)
    ensures MessageTrace(m, clearNeeded).threw
            <==> || m.count.None?
                 || (if m.Snapshot? then |m.groups| else |m.entries|) < m.count.value
                 || exists i :: 0 <= i < |Pending(m)| && Throws(Pending(m)[i])
  {
    if m.count.None? {
      MissingCount(EMPTY_BOOK, m, clearNeeded);
    } else if m.Increment? {
      IncrementThrowsIff(m, clearNeeded);
    } else {
      ListingThrewIff(m, 0, clearNeeded);
      assert MessageTrace(m, clearNeeded).threw == TraceFrom(m, At(0, None), clearNeeded).threw;
      if k :| 0 <= k < Reached(m) && Throws(Listed(m.groups[k])) {
        assert Pending(m)[k + 1] == Listed(m.groups[k]);
      }
      if k :| 0 <= k < |Pending(m)| && Throws(Pending(m)[k]) {
        assert k > 0 ==> Pending(m)[k] == Listed(m.groups[k - 1]);
      }
    }
  }
}
