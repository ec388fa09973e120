// Full refreshes as synchronisation points.
module Snapshots {
  import opened Book
  import opened Messages
  import opened Symbols

  /** An accepted snapshot starts by clearing both sides, whatever happens after that. */
  lemma AcceptedClears(m: Message, clearNeeded: bool)
    requires Accepted(m)
    ensures MessageTrace(m, clearNeeded).ops
            == [Wipe(Bid), Wipe(Ask)] + TraceFrom(m, Step(m, Begin, clearNeeded).next, clearNeeded).ops
  {
  }

  /** A snapshot that is not accepted leaves the book alone; it throws unless it names ETHUSDT. */
  lemma RejectedChangesNothing(b: Book, m: Message, clearNeeded: bool)
    requires m.Snapshot? && !Accepted(m)
    ensures Apply(b, m, clearNeeded).book == b
    ensures Apply(b, m, clearNeeded).threw <==> m.symbol.None? || FromStr(m.symbol.value).None?
  {
    var next := Step(m, Begin, clearNeeded).next;
    assert TraceFrom(m, next, clearNeeded) == Trace([], next.Threw?);
    assert MessageTrace(m, clearNeeded).ops == [];
  }

  lemma ClearedTwice(a: Book, b: Book, ops: seq<Op>)
    ensures DoAll(a, [Wipe(Bid), Wipe(Ask)] + ops) == DoAll(b, [Wipe(Bid), Wipe(Ask)] + ops)
  {
    DoAllConcat(a, [Wipe(Bid), Wipe(Ask)], ops);
    DoAllConcat(b, [Wipe(Bid), Wipe(Ask)], ops);
    assert forall c: Book :: DoAll(c, [Wipe(Bid), Wipe(Ask)]) == EMPTY_BOOK by {
      forall c: Book ensures DoAll(c, [Wipe(Bid), Wipe(Ask)]) == EMPTY_BOOK {
        assert DoAll(c, [Wipe(Bid), Wipe(Ask)]) == DoAll(Do(c, Wipe(Bid)), [Wipe(Ask)]);
        assert DoAll(Do(c, Wipe(Bid)), [Wipe(Ask)]) == Do(Do(c, Wipe(Bid)), Wipe(Ask));
      }
    }
  }

  /** A snapshot makes every two books equal exactly when it is accepted. */
  lemma SynchronisesIffAccepted(m: Message, clearNeeded: bool)
    requires m.Snapshot?
    ensures Accepted(m) <==>
            forall a: Book, b: Book :: Apply(a, m, clearNeeded).book == Apply(b, m, clearNeeded).book
  {
    if Accepted(m) {
      forall a: Book, b: Book
        ensures Apply(a, m, clearNeeded).book == Apply(b, m, clearNeeded).book
      {
        AcceptedClears(m, clearNeeded);
        ClearedTwice(a, b, TraceFrom(m, Step(m, Begin, clearNeeded).next, clearNeeded).ops);
      }
    } else {
      var other := Book(map[0 := 0], map[]);
      RejectedChangesNothing(EMPTY_BOOK, m, clearNeeded);
      RejectedChangesNothing(other, m, clearNeeded);
      assert 0 in other.bids && 0 !in EMPTY_BOOK.bids;
    }
  }

  /** Whatever came before, after an accepted snapshot the same suffix gives the same book. */
  lemma {:induction false} SameAfterSnapshot(a: Book, b: Book, m: Message, suffix: seq<Message>, clearNeeded: bool)
    requires Accepted(m)
    ensures ApplyAll(a, [m] + suffix, clearNeeded) == ApplyAll(b, [m] + suffix, clearNeeded)
    decreases |suffix|
  {
    var ms := [m] + suffix;
    if suffix == [] {
      SynchronisesIffAccepted(m, clearNeeded);
      assert ms[..0] == [];
    } else {
      SameAfterSnapshot(a, b, m, suffix[..|suffix| - 1], clearNeeded);
      assert ms[..|ms| - 1] == [m] + suffix[..|suffix| - 1];
    }
  }

  /** The same with two different histories in front of the snapshot. */
  lemma HistoriesConverge(a: Book, b: Book, before: seq<Message>, before': seq<Message>, m: Message,
                          suffix: seq<Message>, clearNeeded: bool)
    requires Accepted(m)
    ensures ApplyAll(a, before + ([m] + suffix), clearNeeded) == ApplyAll(b, before' + ([m] + suffix), clearNeeded)
  {
    ApplyAllConcat(a, before, [m] + suffix, clearNeeded);
    ApplyAllConcat(b, before', [m] + suffix, clearNeeded);
    SameAfterSnapshot(ApplyAll(a, before, clearNeeded), ApplyAll(b, before', clearNeeded), m, suffix, clearNeeded);
  }

  lemma {:induction false} ApplyAllConcat(b: Book, xs: seq<Message>, ys: seq<Message>, clearNeeded: bool)
    ensures ApplyAll(b, xs + ys, clearNeeded) == ApplyAll(ApplyAll(b, xs, clearNeeded), ys, clearNeeded)
    decreases |ys|
  {
    if ys == [] {
      assert xs + ys == xs;
    } else {
      assert (xs + ys)[..|xs + ys| - 1] == xs + ys[..|ys| - 1];
      ApplyAllConcat(b, xs, ys[..|ys| - 1], clearNeeded);
    }
  }
}
