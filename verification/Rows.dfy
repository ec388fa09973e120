// core::BidAsk rows and the flattening of a book into rows.
module Rows {
  import opened Book
  import opened Ladders
  import opened Messages

  /** UINT64_MAX marks a missing bid or ask. */
  const SENTINEL: nat := 0xFFFF_FFFF_FFFF_FFFF

  datatype Row = Row(bidSz: nat, bidPx: nat, askPx: nat, askSz: nat)

  function RowCount(bids: seq<Ladders.Level>, asks: seq<Ladders.Level>): (n: nat) {
    if |bids| < |asks| then |asks| else |bids|
  }

  function RowAt(bids: seq<Ladders.Level>, asks: seq<Ladders.Level>, k: nat): (r: Row) {
    Row(if k < |bids| then bids[k].sz else SENTINEL,
        if k < |bids| then bids[k].px else SENTINEL,
        if k < |asks| then asks[k].px else SENTINEL,
        if k < |asks| then asks[k].sz else SENTINEL)
  }

  function Zip(bids: seq<Ladders.Level>, asks: seq<Ladders.Level>): (rows: seq<Row>) {
    seq(RowCount(bids, asks), k requires 0 <= k => RowAt(bids, asks, k))
  }

  /** What to_vector returns for a book: bids from the highest price down, asks from the lowest up. */
  ghost function ToRows(b: Book): (rows: seq<Row>) {
    Zip(Ladder(b.bids, true), Ladder(b.asks, false))
  }

  // ---------------------------------------------------------------------------
  // Shape
  // ---------------------------------------------------------------------------

  ghost predicate BelowSentinel(b: Book) {
    (forall p :: p in b.bids ==> p < SENTINEL) && (forall p :: p in b.asks ==> p < SENTINEL)
  }

  lemma ZipColumns(bids: seq<Ladders.Level>, asks: seq<Ladders.Level>)
    ensures |Zip(bids, asks)| == RowCount(bids, asks)
    ensures forall i :: 0 <= i < |Zip(bids, asks)| ==> Zip(bids, asks)[i] == RowAt(bids, asks, i)
  {
  }

  lemma BelowAt(s: seq<Ladders.Level>, m: map<nat, nat>, descending: bool)
    requires IsLadder(s, m, descending) && forall p :: p in m ==> p < SENTINEL
    ensures |s| == |m|
    ensures forall i :: 0 <= i < |s| ==> s[i].px < SENTINEL
  {
    LadderSize(s, m, descending);
  }

  /** As many rows as the larger side has levels; bids strictly fall and asks strictly rise until the
      sentinels begin, which they do right after the last level of the side. */
  lemma RowShape(b: Book)
    requires BelowSentinel(b)
    ensures |ToRows(b)| == if |b.bids| < |b.asks| then |b.asks| else |b.bids|
    ensures forall i :: 0 <= i < |ToRows(b)| ==> (ToRows(b)[i].bidPx == SENTINEL <==> |b.bids| <= i)
    ensures forall i :: 0 <= i < |ToRows(b)| ==> (ToRows(b)[i].askPx == SENTINEL <==> |b.asks| <= i)
    ensures forall i, j :: 0 <= i < j < |b.bids| ==> ToRows(b)[i].bidPx > ToRows(b)[j].bidPx
    ensures forall i, j :: 0 <= i < j < |b.asks| ==> ToRows(b)[i].askPx < ToRows(b)[j].askPx
  {
    var bids, asks := Ladder(b.bids, true), Ladder(b.asks, false);
    BelowAt(bids, b.bids, true);
    BelowAt(asks, b.asks, false);
    ZipColumns(bids, asks);
    assert ToRows(b) == Zip(bids, asks);
    forall i, j | 0 <= i < j < |bids|
      ensures ToRows(b)[i].bidPx > ToRows(b)[j].bidPx
    {
      SortedAt(bids, true, i, j);
    }
    forall i, j | 0 <= i < j < |asks|
      ensures ToRows(b)[i].askPx < ToRows(b)[j].askPx
    {
      SortedAt(asks, false, i, j);
    }
  }

  /** Where a side has no further level, its price and its size are both the largest 64-bit number. */
  lemma MissingLevels(b: Book, i: nat)
    requires i < |ToRows(b)|
    ensures |b.bids| <= i ==> ToRows(b)[i].bidPx == ToRows(b)[i].bidSz == 0xFFFF_FFFF_FFFF_FFFF
    ensures |b.asks| <= i ==> ToRows(b)[i].askPx == ToRows(b)[i].askSz == 0xFFFF_FFFF_FFFF_FFFF
  {
    LadderSize(Ladder(b.bids, true), b.bids, true);
    LadderSize(Ladder(b.asks, false), b.asks, false);
    ZipColumns(Ladder(b.bids, true), Ladder(b.asks, false));
  }

  /** Row 0 holds the best bid and the best ask. */
  lemma BestOnTop(b: Book)
    ensures b.bids != map[] ==>
              && ToRows(b) != [] && ToRows(b)[0].bidPx in b.bids && b.bids[ToRows(b)[0].bidPx] == ToRows(b)[0].bidSz
              && forall p :: p in b.bids ==> p <= ToRows(b)[0].bidPx
    ensures b.asks != map[] ==>
              && ToRows(b) != [] && ToRows(b)[0].askPx in b.asks && b.asks[ToRows(b)[0].askPx] == ToRows(b)[0].askSz
              && forall p :: p in b.asks ==> ToRows(b)[0].askPx <= p
  {
    LadderSize(Ladder(b.bids, true), b.bids, true);
    LadderSize(Ladder(b.asks, false), b.asks, false);
    TopIsBest(Ladder(b.bids, true), b.bids, true);
    TopIsBest(Ladder(b.asks, false), b.asks, false);
  }

  lemma TopIsBest(s: seq<Ladders.Level>, m: map<nat, nat>, descending: bool)
    requires IsLadder(s, m, descending)
    ensures forall p :: p in m ==> s != [] && (p == s[0].px || Before(descending, s[0].px, p))
  {
    forall p | p in m
      ensures s != [] && (p == s[0].px || Before(descending, s[0].px, p))
    {
      var k :| 0 <= k < |s| && s[k].px == p;
      SortedAt(s, descending, 0, k);
    }
  }

  // ---------------------------------------------------------------------------
  // Rebuilding the book from its rows
  // ---------------------------------------------------------------------------

  function Add(m: map<nat, nat>, px: nat, sz: nat): (r: map<nat, nat>) {
    if px == SENTINEL then m else m[px := sz]
  }

  /** Reads the two maps back, taking a sentinel price to mean that there is no level. */
  function Rebuild(rows: seq<Row>): (b: Book)
    decreases |rows|
  {
    if rows == [] then EMPTY_BOOK
    else
      var b := Rebuild(rows[..|rows| - 1]);
      var r := rows[|rows| - 1];
      Book(Add(b.bids, r.bidPx, r.bidSz), Add(b.asks, r.askPx, r.askSz))
  }

  function MapOf(s: seq<Ladders.Level>): (m: map<nat, nat>)
    decreases |s|
  {
    if s == [] then map[] else Add(MapOf(s[..|s| - 1]), s[|s| - 1].px, s[|s| - 1].sz)
  }

  function Prefix(s: seq<Ladders.Level>, k: nat): (r: seq<Ladders.Level>) {
    if k < |s| then s[..k] else s
  }

  lemma RebuildStep(bids: seq<Ladders.Level>, asks: seq<Ladders.Level>, k: nat)
    requires 0 < k <= RowCount(bids, asks)
    ensures var b, r := Rebuild(Zip(bids, asks)[..k - 1]), RowAt(bids, asks, k - 1);
            Rebuild(Zip(bids, asks)[..k]) == Book(Add(b.bids, r.bidPx, r.bidSz), Add(b.asks, r.askPx, r.askSz))
  {
    var rows := Zip(bids, asks)[..k];
    assert rows[..k - 1] == Zip(bids, asks)[..k - 1];
    assert rows[k - 1] == RowAt(bids, asks, k - 1);
  }

  lemma {:induction false} RebuildPrefix(bids: seq<Ladders.Level>, asks: seq<Ladders.Level>, k: nat)
    requires k <= RowCount(bids, asks)
    ensures Rebuild(Zip(bids, asks)[..k]) == Book(MapOf(Prefix(bids, k)), MapOf(Prefix(asks, k)))
  {
    if k > 0 {
      RebuildStep(bids, asks, k);
      RebuildPrefix(bids, asks, k - 1);
      PrefixStep(bids, k);
      PrefixStep(asks, k);
    } else {
      assert Prefix(bids, 0) == [] && Prefix(asks, 0) == [];
    }
  }

  lemma PrefixStep(s: seq<Ladders.Level>, k: nat)
    requires 0 < k
    ensures MapOf(Prefix(s, k)) == if k <= |s| then Add(MapOf(Prefix(s, k - 1)), s[k - 1].px, s[k - 1].sz)
                                   else MapOf(Prefix(s, k - 1))
  {
    if k <= |s| {
      assert Prefix(s, k)[..k - 1] == Prefix(s, k - 1);
    }
  }

  lemma {:induction false} MapOfLadder(s: seq<Ladders.Level>, m: map<nat, nat>, descending: bool)
    requires IsLadder(s, m, descending)
    ensures MapOf(s) == m - {SENTINEL}
    decreases |s|
  {
    if s == [] {
      assert m == map[];
    } else {
      var k := |s| - 1;
      var px := s[k].px;
      assert px in m && m[px] == s[k].sz;
      assert IsSlot(s, px, descending, k) by {
        SortedAtAll(s, descending, k);
      }
      EraseRefines(s, m, descending, k, px);
      assert Erase(s, k, px) == s[..k];
      MapOfLadder(s[..k], m - {px}, descending);
    }
  }

  lemma SortedAtAll(s: seq<Ladders.Level>, descending: bool, k: nat)
    requires Sorted(s, descending) && k < |s|
    ensures forall j :: 0 <= j < k ==> Before(descending, s[j].px, s[k].px)
  {
  }

  /** The rows determine the book up to a level at the sentinel price. */
  lemma RebuildRows(b: Book)
    ensures Rebuild(ToRows(b)) == Book(b.bids - {SENTINEL}, b.asks - {SENTINEL})
  {
    var bids, asks := Ladder(b.bids, true), Ladder(b.asks, false);
    var n := RowCount(bids, asks);
    RebuildPrefix(bids, asks, n);
    assert Zip(bids, asks)[..n] == Zip(bids, asks);
    assert Prefix(bids, n) == bids && Prefix(asks, n) == asks;
    MapOfLadder(bids, b.bids, true);
    MapOfLadder(asks, b.asks, false);
  }

  /** to_vector is lossless exactly on books without a level at the sentinel price. */
  lemma LosslessIff(b: Book)
    ensures Rebuild(ToRows(b)) == b <==> SENTINEL !in b.bids && SENTINEL !in b.asks
  {
    RebuildRows(b);
    assert SENTINEL !in b.bids - {SENTINEL} && SENTINEL !in b.asks - {SENTINEL};
    if SENTINEL !in b.bids && SENTINEL !in b.asks {
      assert b.bids - {SENTINEL} == b.bids && b.asks - {SENTINEL} == b.asks;
    }
  }

  // ---------------------------------------------------------------------------
  // Books that messages produce
  // ---------------------------------------------------------------------------

  ghost predicate OpBelow(op: Op) {
    op.Put? ==> op.px < SENTINEL && op.sz < SENTINEL
  }

  lemma StepBelow(m: Message, c: Cursor, clearNeeded: bool)
    requires c.Begin? || c.At?
    ensures forall i :: 0 <= i < |Step(m, c, clearNeeded).ops| ==> OpBelow(Step(m, c, clearNeeded).ops[i])
  {
  }

  lemma {:induction false} TraceBelow(m: Message, c: Cursor, clearNeeded: bool)
    ensures forall i :: 0 <= i < |TraceFrom(m, c, clearNeeded).ops| ==> OpBelow(TraceFrom(m, c, clearNeeded).ops[i])
    decreases StepsLeft(m, c)
  {
    if c.Begin? || c.At? {
      StepBelow(m, c, clearNeeded);
      TraceBelow(m, Step(m, c, clearNeeded).next, clearNeeded);
    }
  }

  lemma {:induction false} DoAllBelow(b: Book, ops: seq<Op>)
    requires BelowSentinel(b) && forall i :: 0 <= i < |ops| ==> OpBelow(ops[i])
    ensures BelowSentinel(DoAll(b, ops))
    decreases |ops|
  {
    if ops != [] {
      assert OpBelow(ops[0]);
      DoAllBelow(Do(b, ops[0]), ops[1..]);
    }
  }

  /** No message puts a level at the sentinel price, not even one that throws. */
  lemma ApplyBelow(b: Book, m: Message, clearNeeded: bool)
    requires BelowSentinel(b)
    ensures BelowSentinel(Apply(b, m, clearNeeded).book)
  {
    TraceBelow(m, Begin, clearNeeded);
    DoAllBelow(b, MessageTrace(m, clearNeeded).ops);
  }

  /** Every book that a stream of messages builds is read back exactly from its rows, whatever book without a
      level at the sentinel price it starts from. */
  lemma {:induction false} StreamRowsLossless(b: Book, ms: seq<Message>, clearNeeded: bool)
    requires BelowSentinel(b)
    ensures BelowSentinel(ApplyAll(b, ms, clearNeeded))
    ensures Rebuild(ToRows(ApplyAll(b, ms, clearNeeded))) == ApplyAll(b, ms, clearNeeded)
    decreases |ms|
  {
    if ms != [] {
      var init := ms[..|ms| - 1];
      StreamRowsLossless(b, init, clearNeeded);
      ApplyBelow(ApplyAll(b, init, clearNeeded), ms[|ms| - 1], clearNeeded);
    }
    LosslessIff(ApplyAll(b, ms, clearNeeded));
  }
}
