// core::OrderBook: two oppositely ordered maps, changed in place by FIX messages.
module OrderBooks {
  import opened Book
  import opened Ladders
  import opened LevelMaps
  import opened Messages
  import opened Rows
  import opened Symbols
  import opened Ticks
  import opened Wrappers

  class OrderBook {
    const bids: LevelMap
    const asks: LevelMap

    ghost function Repr(): (r: set<object>)
      reads bids, asks
    {
      bids.Repr + asks.Repr
    }

    ghost predicate Valid()
      reads bids, asks, bids.Repr, asks.Repr
    {
      && bids.Valid() && asks.Valid()
      && bids.Repr !! asks.Repr
      && bids.descending && !asks.descending
    }

    ghost function Model(): (b: Book)
      reads bids, asks
    {
      Book(bids.contents, asks.contents)
    }

    constructor ()
      ensures Valid() && fresh(Repr())
      ensures Model() == EMPTY_BOOK
    {
      bids := new LevelMap(true);
      asks := new LevelMap(false);
    }

    function MapOf(s: Side): (m: LevelMap) {
      match s
      case Bid => bids
      case Ask => asks
    }

    method Clear(s: Side)
      requires Valid()
      modifies Repr()
      ensures Valid() && Repr() == old(Repr())
      ensures Model() == Do(old(Model()), Wipe(s))
    {
      MapOf(s).Clear();
    }

    method Assign(s: Side, px: nat, sz: nat)
      requires Valid()
      modifies Repr()
      ensures Valid() && fresh(Repr() - old(Repr()))
      ensures Model() == Do(old(Model()), Put(s, px, sz))
    {
      MapOf(s).Assign(px, sz);
    }

    method Erase(s: Side, px: nat)
      requires Valid()
      modifies Repr()
      ensures Valid() && Repr() == old(Repr())
      ensures Model() == Do(old(Model()), Drop(s, px))
    {
      MapOf(s).Erase(px);
    }

    /** handle_price_level_update. The result tells whether a field getter threw. */
    method HandlePriceLevelUpdate(s: Side, action: ActionField, e: IncrementEntry, clearNeeded: bool)
      returns (threw: bool)
      requires Valid()
      modifies Repr()
      ensures Valid() && fresh(Repr() - old(Repr()))
      ensures threw == LevelTrace(s, action, e, clearNeeded).threw
      ensures Model() == DoAll(old(Model()), LevelTrace(s, action, e, clearNeeded).ops)
    {
      if e.px.None? {
        return true;
      }
      var px := ToUint64(e.px.value, PriceTicksPerUnit(BTCUSDT));
      DoOne(Model(), Drop(s, px));
      DoOne(Model(), Wipe(s));
      if !action.Action? {
        return true;
      }
      if action.value == ACTION_DELETE {
        Erase(s, px);
      } else if action.value == ACTION_CHANGE || action.value == ACTION_NEW {
        if action.value == ACTION_CHANGE && clearNeeded {
          Clear(s);
        }
        if e.sz.None? {
          return true;
        }
        var sz := ToUint64(e.sz.value, SizeTicksPerUnit(BTCUSDT));
        DoOne(old(Model()), Put(s, px, sz));
        DoTwo(old(Model()), Wipe(s), Put(s, px, sz));
        assert [] + [Put(s, px, sz)] == [Put(s, px, sz)];
        Assign(s, px, sz);
      }
      return false;
    }

    /** The loop body of apply_snapshot. */
    method ApplySnapshotEntry(e: SnapshotEntry) returns (threw: bool)
      requires Valid()
      modifies Repr()
      ensures Valid() && fresh(Repr() - old(Repr()))
      ensures threw == SnapshotEntryTrace(e).threw
      ensures Model() == DoAll(old(Model()), SnapshotEntryTrace(e).ops)
    {
      if e.entryType.None? || e.px.None? || e.sz.None? {
        return true;
      }
      var px := ToUint64(e.px.value, PriceTicksPerUnit(BTCUSDT));
      var sz := ToUint64(e.sz.value, SizeTicksPerUnit(BTCUSDT));
      DoOne(Model(), Put(Bid, px, sz));
      DoOne(Model(), Put(Ask, px, sz));
      if e.entryType.value == TYPE_BID {
        Assign(Bid, px, sz);
      } else if e.entryType.value == TYPE_OFFER {
        Assign(Ask, px, sz);
      }
      return false;
    }

    /** The loop of apply_snapshot. */
    method ApplySnapshotEntries(m: Message) returns (threw: bool)
      requires Valid() && m.Snapshot? && m.count.Some?
      modifies Repr()
      ensures Valid() && fresh(Repr() - old(Repr()))
      ensures Outcome(Model(), threw) == Finish(old(Model()), m, At(0, None), false)
    {
      var i := 0;
      while i < m.count.value
        invariant 0 <= i && Valid() && fresh(Repr() - old(Repr()))
        invariant Finish(Model(), m, At(i, None), false) == Finish(old(Model()), m, At(0, None), false)
      {
        SnapshotTurn(Model(), m, i);
        if |m.groups| <= i {
          return true;
        }
        var failed := ApplySnapshotEntry(m.groups[i]);
        if failed {
          return true;
        }
        i := i + 1;
      }
      SnapshotEnds(Model(), m, i);
      return false;
    }

    /** apply_snapshot. */
    method ApplySnapshot(m: Message) returns (threw: bool)
      requires Valid() && m.Snapshot?
      modifies Repr()
      ensures Valid() && fresh(Repr() - old(Repr()))
      ensures Outcome(Model(), threw) == Apply(old(Model()), m, false)
    {
      FinishStep(Model(), m, Begin, false);
      FinishEnded(Model(), m, false);
      if m.symbol.None? {
        return true;
      }
      var symbol := FromStr(m.symbol.value);
      if symbol.None? {
        return true;
      }
      if symbol.value != BTCUSDT {
        return false;
      }
      DoTwo(Model(), Wipe(Bid), Wipe(Ask));
      Clear(Bid);
      Clear(Ask);
      FinishEnded(Model(), m, false);
      if m.count.None? {
        return true;
      }
      threw := ApplySnapshotEntries(m);
    }

    /** What apply_increment does with an entry once its symbol is known to be BTCUSDT. */
    method ApplyBitcoinEntry(e: IncrementEntry, clearNeeded: bool) returns (threw: bool)
      requires Valid()
      modifies Repr()
      ensures Valid() && fresh(Repr() - old(Repr()))
      ensures threw == BitcoinTrace(e, clearNeeded).threw
      ensures Model() == DoAll(old(Model()), BitcoinTrace(e, clearNeeded).ops)
    {
      if e.entryType.None? || e.action.NoAction? {
        return true;
      }
      if e.entryType.value == TYPE_BID {
        threw := HandlePriceLevelUpdate(Bid, e.action, e, clearNeeded);
      } else if e.entryType.value == TYPE_OFFER {
        threw := HandlePriceLevelUpdate(Ask, e.action, e, clearNeeded);
      } else {
        threw := false;
      }
    }

    /** The loop body of apply_increment from the symbol on: it keeps, replaces or fails to read the symbol. */
    method ApplyIncrementEntry(e: IncrementEntry, i: nat, carried: Option<Symbol>, clearNeeded: bool)
      returns (threw: bool, symbol: Option<Symbol>)
      requires Valid() && (0 < i ==> carried.Some?)
      modifies Repr()
      ensures Valid() && fresh(Repr() - old(Repr()))
      ensures var v := IncrementMove(e, i, carried, clearNeeded);
              && Model() == DoAll(old(Model()), v.ops)
              && if threw then v.next == Threw else symbol.Some? && v.next == At(i + 1, symbol)
    {
      symbol := carried;
      if i == 0 || e.symbol.Some? {
        if e.symbol.None? {
          return true, symbol;
        }
        symbol := FromStr(e.symbol.value);
        if symbol.None? {
          return true, symbol;
        }
      }
      if symbol.None? {
        assert false;
      }
      if symbol != Some(BTCUSDT) {
        return false, symbol;
      }
      threw := ApplyBitcoinEntry(e, clearNeeded);
    }

    /** apply_increment. */
    method ApplyIncrement(m: Message, clearNeeded: bool) returns (threw: bool)
      requires Valid() && m.Increment?
      modifies Repr()
      ensures Valid() && fresh(Repr() - old(Repr()))
      ensures Outcome(Model(), threw) == Apply(old(Model()), m, clearNeeded)
    {
      FinishStep(Model(), m, Begin, clearNeeded);
      FinishEnded(Model(), m, clearNeeded);
      if m.count.None? {
        return true;
      }
      var symbol: Option<Symbol> := None;
      var i := 0;
      while i < m.count.value
        invariant 0 <= i && Valid() && fresh(Repr() - old(Repr()))
        invariant 0 < i ==> symbol.Some?
        invariant Finish(Model(), m, At(i, symbol), clearNeeded) == Apply(old(Model()), m, clearNeeded)
      {
        IncrementTurn(Model(), m, i, symbol, clearNeeded);
        if |m.entries| <= i {
          return true;
        }
        var failed;
        failed, symbol := ApplyIncrementEntry(m.entries[i], i, symbol, clearNeeded);
        FinishEnded(Model(), m, clearNeeded);
        if failed {
          return true;
        }
        i := i + 1;
      }
      IncrementEnds(Model(), m, i, symbol, clearNeeded);
      return false;
    }

    /** std::visit in the worker: the message kind selects the method. */
    method ApplyMessage(m: Message, clearNeeded: bool) returns (threw: bool)
      requires Valid()
      modifies Repr()
      ensures Valid() && fresh(Repr() - old(Repr()))
      ensures Outcome(Model(), threw) == Apply(old(Model()), m, clearNeeded)
    {
      if m.Snapshot? {
        ModeIrrelevant(m, Begin, clearNeeded);
        threw := ApplySnapshot(m);
      } else {
        threw := ApplyIncrement(m, clearNeeded);
      }
    }

    method ToVector() returns (rows: seq<Row>)
      requires Valid()
      ensures rows == ToRows(Model())
    {
      rows := Walk(bids.slots, bids.size, asks.slots, asks.size);
      LadderUnique(bids.slots[..bids.size], Ladder(bids.contents, true), bids.contents, true);
      LadderUnique(asks.slots[..asks.size], Ladder(asks.contents, false), asks.contents, false);
    }
  }

  /** The loop of to_vector, which walks both maps at once. */
  method Walk(bids: array<Ladders.Level>, bidEnd: nat, asks: array<Ladders.Level>, askEnd: nat) returns (rows: seq<Row>)
    requires bidEnd <= bids.Length && askEnd <= asks.Length
    ensures rows == Zip(bids[..bidEnd], asks[..askEnd])
  {
    ghost var bs, ss := bids[..bidEnd], asks[..askEnd];
    rows := [];
    var bidIt, askIt := 0, 0;
    while bidIt != bidEnd || askIt != askEnd
      invariant |rows| <= RowCount(bs, ss)
      invariant bidIt == (if |rows| < bidEnd then |rows| else bidEnd)
      invariant askIt == (if |rows| < askEnd then |rows| else askEnd)
      invariant forall k :: 0 <= k < |rows| ==> rows[k] == RowAt(bs, ss, k)
      decreases RowCount(bs, ss) - |rows|
    {
      var row := Row(SENTINEL, SENTINEL, SENTINEL, SENTINEL);
      if bidIt != bidEnd {
        row := row.(bidPx := bids[bidIt].px, bidSz := bids[bidIt].sz);
        bidIt := bidIt + 1;
      }
      if askIt != askEnd {
        row := row.(askPx := asks[askIt].px, askSz := asks[askIt].sz);
        askIt := askIt + 1;
      }
      rows := rows + [row];
    }
  }

  /** How one turn of apply_snapshot's loop relates the ends of the message before and after it. */
  lemma SnapshotTurn(b: Book, m: Message, i: nat)
    requires m.Snapshot? && m.count.Some? && i < m.count.value
    ensures Finish(b, m, At(i, None), false)
            == if |m.groups| <= i then Outcome(b, true)
               else
                 var t := SnapshotEntryTrace(m.groups[i]);
                 if t.threw then Outcome(DoAll(b, t.ops), true)
                 else Finish(DoAll(b, t.ops), m, At(i + 1, None), false)
  {
    FinishStep(b, m, At(i, None), false);
    FinishEnded(DoAll(b, Step(m, At(i, None), false).ops), m, false);
  }

  lemma SnapshotEnds(b: Book, m: Message, i: nat)
    requires m.Snapshot? && m.count.Some? && m.count.value <= i
    ensures Finish(b, m, At(i, None), false) == Outcome(b, false)
  {
    FinishStep(b, m, At(i, None), false);
    FinishEnded(b, m, false);
  }

  /** How one turn of apply_increment's loop relates the ends of the message before and after it. */
  lemma IncrementTurn(b: Book, m: Message, i: nat, symbol: Option<Symbol>, clearNeeded: bool)
    requires m.Increment? && m.count.Some? && i < m.count.value
    ensures Finish(b, m, At(i, symbol), clearNeeded)
            == if |m.entries| <= i then Outcome(b, true)
               else var v := IncrementMove(m.entries[i], i, symbol, clearNeeded);
                    Finish(DoAll(b, v.ops), m, v.next, clearNeeded)
  {
    FinishStep(b, m, At(i, symbol), clearNeeded);
    FinishEnded(b, m, clearNeeded);
  }

  lemma IncrementEnds(b: Book, m: Message, i: nat, symbol: Option<Symbol>, clearNeeded: bool)
    requires m.Increment? && m.count.Some? && m.count.value <= i
    ensures Finish(b, m, At(i, symbol), clearNeeded) == Outcome(b, false)
  {
    FinishStep(b, m, At(i, symbol), clearNeeded);
    FinishEnded(b, m, clearNeeded);
  }

  /** The depth-one mode does not concern snapshots. */
  lemma {:induction false} ModeIrrelevant(m: Message, c: Cursor, clearNeeded: bool)
    requires m.Snapshot?
    ensures TraceFrom(m, c, clearNeeded) == TraceFrom(m, c, false)
    decreases StepsLeft(m, c)
  {
    if c.Begin? || c.At? {
      assert Step(m, c, clearNeeded) == Step(m, c, false);
      ModeIrrelevant(m, Step(m, c, false).next, clearNeeded);
    }
  }
}
