// The depth-one mode, in which a CHANGE first clears its side.
module DepthOne {
  import opened Book
  import opened BookLaws
  import opened ClosedForm
  import opened Messages
  import opened Snapshots
  import opened Symbols
  import opened Ticks
  import opened Wrappers

  /** A CHANGE of a BTCUSDT level with every field it needs. */
  predicate CompleteChange(e: IncrementEntry) {
    && e.symbol.Some? && FromStr(e.symbol.value) == Some(BTCUSDT)
    && e.entryType.Some? && SideOf(e.entryType.value).Some?
    && e.action == Action(ACTION_CHANGE) && e.px.Some? && e.sz.Some?
  }

  /** A completed CHANGE leaves its side with exactly its own level and the other side as it was. */
  lemma ChangeLeavesOneLevel(b: Book, e: IncrementEntry)
    requires CompleteChange(e)
    ensures !EntryTrace(e, true).threw
    ensures var s := SideOf(e.entryType.value).value;
            var after := DoAll(b, EntryTrace(e, true).ops);
            && after.Get(s) == map[ToUint64(e.px.value, 100) := ToUint64(e.sz.value, 100_000)]
            && after.Get(Other(s)) == b.Get(Other(s))
  {
    var s := SideOf(e.entryType.value).value;
    var px, sz := ToUint64(e.px.value, 100), ToUint64(e.sz.value, 100_000);
    assert EntryTrace(e, true).ops == [Wipe(s), Put(s, px, sz)];
    WipeThenPut(b, s, px, sz);
  }

  lemma WipeThenPut(b: Book, s: Side, px: nat, sz: nat)
    ensures DoAll(b, [Wipe(s), Put(s, px, sz)]) == b.With(s, map[px := sz])
  {
    assert [Wipe(s), Put(s, px, sz)][1..] == [Put(s, px, sz)];
    assert DoAll(Do(b, Wipe(s)), [Put(s, px, sz)]) == Do(Do(b, Wipe(s)), Put(s, px, sz));
  }

  function Other(s: Side): (r: Side)
    ensures r != s
  {
    match s
    case Bid => Ask
    case Ask => Bid
  }

  lemma {:induction false} SideAlone(a: Book, b: Book, ops: seq<Op>, s: Side)
    requires a.Get(s) == b.Get(s)
    ensures DoAll(a, ops).Get(s) == DoAll(b, ops).Get(s)
    decreases |ops|
  {
    if ops != [] {
      SideAlone(Do(a, ops[0]), Do(b, ops[0]), ops[1..], s);
    }
  }

  // ---------------------------------------------------------------------------
  // How a side grows
  // ---------------------------------------------------------------------------

  /** A NEW of a BTCUSDT level on side s, or a level of s listed by a snapshot. */
  predicate AddsLevel(h: Happening, s: Side) {
    match h
    case Refresh => false
    case Listed(e) => e.entryType == Some(TypeOf(s))
    case Updated(e) =>
      && e.symbol.Some? && FromStr(e.symbol.value) == Some(BTCUSDT)
      && e.entryType == Some(TypeOf(s)) && e.action == Action(ACTION_NEW)
  }

  /** The number of NEWs on side s, and of levels of s listed by snapshots. */
  function News(hs: seq<Happening>, s: Side): (n: nat)
    decreases |hs|
  {
    if hs == [] then 0
    else News(hs[..|hs| - 1], s) + (if AddsLevel(hs[|hs| - 1], s) then 1 else 0)
  }

  lemma PutGrows(b: Book, s: Side, px: nat, sz: nat)
    ensures |Do(b, Put(s, px, sz)).Get(s)| <= |b.Get(s)| + 1
  {
    assert b.Get(s)[px := sz].Keys == b.Get(s).Keys + {px};
  }

  lemma DropShrinks(b: Book, s: Side, px: nat)
    ensures |Do(b, Drop(s, px)).Get(s)| <= |b.Get(s)|
  {
    var m := b.Get(s);
    assert m.Keys == (m - {px}).Keys + (m.Keys - (m - {px}).Keys);
    assert |m.Keys| == |(m - {px}).Keys| + |m.Keys - (m - {px}).Keys|;
  }

  lemma OpGrows(b: Book, op: Op, s: Side)
    ensures |Do(b, op).Get(s)| <= |b.Get(s)| + (if op.Put? && op.side == s then 1 else 0)
  {
    if op.side != s {
      assert Do(b, op).Get(s) == b.Get(s);
    } else if op.Put? {
      PutGrows(b, s, op.px, op.sz);
    } else if op.Drop? {
      DropShrinks(b, s, op.px);
    }
  }

  lemma ListedGrows(b: Book, e: SnapshotEntry, s: Side)
    ensures |DoAll(b, SnapshotEntryTrace(e).ops).Get(s)| <= |b.Get(s)| + (if AddsLevel(Listed(e), s) then 1 else 0)
  {
    var ops := SnapshotEntryTrace(e).ops;
    if ops != [] {
      DoOne(b, ops[0]);
      OpGrows(b, ops[0], s);
    }
  }

  /** Without a complete CHANGE, an entry is at most one operation, and it adds a level only if it is a NEW. */
  lemma OtherUpdates(e: IncrementEntry, s: Side)
    requires !CompleteChange(e)
    ensures var ops := EntryTrace(e, true).ops;
            ops == [] || (|ops| == 1 && (ops[0].Put? && ops[0].side == s ==> AddsLevel(Updated(e), s)))
  {
  }

  lemma UpdatedGrows(b: Book, e: IncrementEntry, s: Side)
    requires !CompleteChange(e)
    ensures |DoAll(b, EntryTrace(e, true).ops).Get(s)| <= |b.Get(s)| + (if AddsLevel(Updated(e), s) then 1 else 0)
  {
    OtherUpdates(e, s);
    var ops := EntryTrace(e, true).ops;
    if ops != [] {
      assert ops == [ops[0]];
      DoOne(b, ops[0]);
      OpGrows(b, ops[0], s);
    }
  }

  lemma ChangeCollapses(b: Book, e: IncrementEntry, s: Side)
    requires CompleteChange(e)
    ensures |DoAll(b, EntryTrace(e, true).ops).Get(s)| <= 1
            || DoAll(b, EntryTrace(e, true).ops).Get(s) == b.Get(s)
  {
    ChangeLeavesOneLevel(b, e);
  }

  lemma HappeningGrows(b: Book, h: Happening, s: Side)
    ensures |DoAll(b, OpsOf(h, true).ops).Get(s)| <= 1
            || |DoAll(b, OpsOf(h, true).ops).Get(s)| <= |b.Get(s)| + (if AddsLevel(h, s) then 1 else 0)
  {
    match h
    case Refresh => DoTwo(b, Wipe(Bid), Wipe(Ask));
    case Listed(e) => ListedGrows(b, e, s);
    case Updated(e) =>
      if CompleteChange(e) {
        ChangeCollapses(b, e, s);
      } else {
        UpdatedGrows(b, e, s);
      }
  }

  lemma {:induction false} HistoryGrows(b: Book, hs: seq<Happening>, s: Side)
    requires |b.Get(s)| <= 1
    ensures |DoAll(b, HistoryOps(hs, true)).Get(s)| <= 1 + News(hs, s)
    decreases |hs|
  {
    if hs != [] {
      var k := |hs| - 1;
      HistoryGrows(b, hs[..k], s);
      HistorySplit(b, hs, k);
      OneHappening(hs[k], true);
      assert hs[k..] == [hs[k]];
      HappeningGrows(DoAll(b, HistoryOps(hs[..k], true)), hs[k], s);
    }
  }

  lemma HistorySplit(b: Book, hs: seq<Happening>, i: nat)
    requires i <= |hs|
    ensures DoAll(b, HistoryOps(hs, true)) == DoAll(DoAll(b, HistoryOps(hs[..i], true)), HistoryOps(hs[i..], true))
  {
    assert hs == hs[..i] + hs[i..];
    HistoryOpsConcat(hs[..i], hs[i..], true);
    DoAllConcat(b, HistoryOps(hs[..i], true), HistoryOps(hs[i..], true));
  }

  /** The book just after happening i, a complete CHANGE: one level on its side. */
  lemma AfterChange(b: Book, hs: seq<Happening>, i: nat, e: IncrementEntry)
    requires i < |hs| && hs[i] == Updated(e) && CompleteChange(e)
    ensures DoAll(b, HistoryOps(hs[..i + 1], true)).Get(SideOf(e.entryType.value).value)
            == map[ToUint64(e.px.value, 100) := ToUint64(e.sz.value, 100_000)]
  {
    var init := hs[..i + 1];
    HistorySplit(b, init, i);
    assert init[..i] == hs[..i] && init[i..] == [hs[i]];
    OneHappening(hs[i], true);
    ChangeLeavesOneLevel(DoAll(b, HistoryOps(hs[..i], true)), e);
  }

  /** In any stream, a complete CHANGE makes everything before it on its side irrelevant,
      the starting book included, and from then on the side holds at most one level more than there were
      NEWs and listed levels on it since. */
  lemma EverythingEarlierIsIrrelevant(a: Book, b: Book, ms: seq<Message>, i: nat, e: IncrementEntry)
    requires i < |History(ms)| && History(ms)[i] == Updated(e) && CompleteChange(e)
    ensures var s := SideOf(e.entryType.value).value;
            && ApplyAll(a, ms, true).Get(s) == ApplyAll(b, ms, true).Get(s)
            && |ApplyAll(a, ms, true).Get(s)| <= 1 + News(History(ms)[i + 1..], s)
  {
    var s, hs := SideOf(e.entryType.value).value, History(ms);
    StreamIsHistory(ms, true);
    StreamIsItsOps(a, ms, true);
    StreamIsItsOps(b, ms, true);
    HistorySplit(a, hs, i + 1);
    HistorySplit(b, hs, i + 1);
    AfterChange(a, hs, i, e);
    AfterChange(b, hs, i, e);
    var a', b' := DoAll(a, HistoryOps(hs[..i + 1], true)), DoAll(b, HistoryOps(hs[..i + 1], true));
    SideAlone(a', b', HistoryOps(hs[i + 1..], true), s);
    HistoryGrows(a', hs[i + 1..], s);
  }

  /** Whatever two streams came before one that holds a complete CHANGE, its side ends up the same. */
  lemma EarlierStreamsForgotten(a: Book, b: Book, before: seq<Message>, before': seq<Message>, ms: seq<Message>,
                                i: nat, e: IncrementEntry)
    requires i < |History(ms)| && History(ms)[i] == Updated(e) && CompleteChange(e)
    ensures var s := SideOf(e.entryType.value).value;
            ApplyAll(a, before + ms, true).Get(s) == ApplyAll(b, before' + ms, true).Get(s)
  {
    ApplyAllConcat(a, before, ms, true);
    ApplyAllConcat(b, before', ms, true);
    EverythingEarlierIsIrrelevant(ApplyAll(a, before, true), ApplyAll(b, before', true), ms, i, e);
  }

  // ---------------------------------------------------------------------------
  // With the mode off, CHANGE and NEW are the same
  // ---------------------------------------------------------------------------

  /** The message with the chosen CHANGE entries turned into NEW. */
  function ChangesToNews(m: Message, which: set<nat>): (r: Message) {
    if m.Snapshot? then m
    else m.(entries := seq(|m.entries|, i requires 0 <= i < |m.entries| =>
      if i in which && m.entries[i].action == Action(ACTION_CHANGE) then m.entries[i].(action := Action(ACTION_NEW))
      else m.entries[i]))
  }

  lemma {:induction false} SameTraceFrom(m: Message, which: set<nat>, c: Cursor)
    ensures TraceFrom(ChangesToNews(m, which), c, false) == TraceFrom(m, c, false)
    decreases StepsLeft(m, c)
  {
    if c.Begin? || c.At? {
      SameStep(m, which, c);
      SameTraceFrom(m, which, Step(m, c, false).next);
    }
  }

  lemma SameStep(m: Message, which: set<nat>, c: Cursor)
    requires c.Begin? || c.At?
    ensures Step(ChangesToNews(m, which), c, false) == Step(m, c, false)
  {
    if m.Increment? && c.At? && c.i < |m.entries| {
      var e := m.entries[c.i];
      var n := e.(action := Action(ACTION_NEW));
      if e.action == Action(ACTION_CHANGE) {
        assert BitcoinTrace(n, false) == BitcoinTrace(e, false);
        assert IncrementMove(n, c.i, c.symbol, false) == IncrementMove(e, c.i, c.symbol, false);
      }
    }
  }

  /** Turning any CHANGE entries into NEW never alters a run of the book. */
  lemma {:induction false} ChangeIsNew(b: Book, ms: seq<Message>, which: seq<set<nat>>)
    requires |which| == |ms|
    ensures ApplyAll(b, seq(|ms|, i requires 0 <= i < |ms| => ChangesToNews(ms[i], which[i])), false)
            == ApplyAll(b, ms, false)
    decreases |ms|
  {
    if ms != [] {
      var k := |ms| - 1;
      var xs := seq(|ms|, i requires 0 <= i < |ms| => ChangesToNews(ms[i], which[i]));
      var init, winit := ms[..k], which[..k];
      assert xs[..k] == seq(|init|, i requires 0 <= i < |init| => ChangesToNews(init[i], winit[i]));
      ChangeIsNew(b, init, winit);
      SameTraceFrom(ms[k], which[k], Begin);
    }
  }
}
