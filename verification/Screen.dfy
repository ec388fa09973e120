// OrderBookBox::to_table: from the book to the texts in the cells.
module Screen {
  import opened Book
  import opened Display
  import opened Ladders
  import opened NumberText
  import opened OrderBooks
  import opened Pipeline
  import opened Refinement
  import opened Rows
  import opened SizeCells
  import opened ToChars
  import opened Wrappers

  /** The four cells of a row of the table. */
  datatype Cells = Cells(bidSz: string, bid: string, ask: string, askSz: string)

  function CellsOf(r: Row): (c: Cells) {
    Cells(SizeCell(r.bidSz), PriceCell(r.bidPx), PriceCell(r.askPx), SizeCell(r.askSz))
  }

  function Each<A, B>(s: seq<A>, f: A -> B): (r: seq<B>)
    ensures |r| == |s| && forall i :: 0 <= i < |s| ==> r[i] == f(s[i])
  {
    seq(|s|, i requires 0 <= i < |s| => f(s[i]))
  }

  lemma EachMore<A, B>(s: seq<A>, f: A -> B, i: nat)
    requires i < |s|
    ensures Each(s[..i + 1], f) == Each(s[..i], f) + [f(s[i])]
  {
  }

  function TableOf(rows: seq<Row>): (table: seq<Cells>)
    ensures |table| == |rows|
  {
    Each(rows, CellsOf)
  }

  method PrintPrice(px: nat) returns (cell: string)
    ensures cell == PriceCell(px)
  {
    var text := PrettyText(General(PriceDouble(px)));
    cell := Pad(text, 13);
  }

  method PrintSize(sz: nat) returns (cell: string)
    ensures cell == SizeCell(sz)
  {
    var text := TrimInPlace(Fixed(SizeDouble(sz)));
    cell := Pad(text, 10);
  }

  method PrintRow(r: Row) returns (c: Cells)
    ensures c == CellsOf(r)
  {
    var bidSz := PrintSize(r.bidSz);
    var bid := PrintPrice(r.bidPx);
    var ask := PrintPrice(r.askPx);
    var askSz := PrintSize(r.askSz);
    c := Cells(bidSz, bid, ask, askSz);
  }

  /** to_table */
  method ToTable(book: OrderBook) returns (table: seq<Cells>)
    requires book.Valid()
    ensures table == TableOf(ToRows(book.Model()))
  {
    var rows := book.ToVector();
    table := [];
    for i := 0 to |rows|
      invariant table == TableOf(rows[..i])
    {
      var c := PrintRow(rows[i]);
      EachMore(rows, CellsOf, i);
      table := table + [c];
    }
    assert rows[..|rows|] == rows;
  }

  // ---------------------------------------------------------------------------
  // Reading the price columns
  // ---------------------------------------------------------------------------

  /** The cells of a column, read from the top, give the prices of one side, best first, and no price after. */
  ghost predicate ColumnReads(cells: seq<string>, levels: seq<Ladders.Level>) {
    forall i :: 0 <= i < |cells| ==> Parse(cells[i]) == if i < |levels| then Some(levels[i].px) else None
  }

  function Bids(table: seq<Cells>): (column: seq<string>)
    ensures |column| == |table|
  {
    Each(table, (c: Cells) => c.bid)
  }

  function Asks(table: seq<Cells>): (column: seq<string>)
    ensures |column| == |table|
  {
    Each(table, (c: Cells) => c.ask)
  }

  /** Every price of the side can be read from a cell of 13 columns. */
  ghost predicate AllReadable(m: map<nat, nat>) {
    forall p :: p in m ==> Readable(p)
  }

  /** A column of price cells, the sentinel where there is no level. */
  ghost predicate PricesThenSentinels(cells: seq<string>, levels: seq<Ladders.Level>) {
    && |levels| <= |cells|
    && forall i :: 0 <= i < |cells| ==> cells[i] == PriceCell(if i < |levels| then levels[i].px else SENTINEL)
  }

  lemma ColumnReadsIff(cells: seq<string>, levels: seq<Ladders.Level>, m: map<nat, nat>, descending: bool)
    requires PricesThenSentinels(cells, levels) && IsLadder(levels, m, descending)
    ensures ColumnReads(cells, levels) <==> AllReadable(m)
  {
    SentinelCell(SENTINEL);
    if ColumnReads(cells, levels) {
      forall p | p in m
        ensures Readable(p)
      {
        var k := FindKey(levels, m, p);
        CellReadsBackIff(p);
        assert Parse(cells[k]) == Some(p);
      }
    }
    if AllReadable(m) {
      forall i | 0 <= i < |cells|
        ensures Parse(cells[i]) == if i < |levels| then Some(levels[i].px) else None
      {
        if i < |levels| {
          ListsAt(levels, m, i);
          CellReadsBackIff(levels[i].px);
        }
      }
    }
  }

  lemma PriceColumns(b: Book)
    ensures PricesThenSentinels(Bids(TableOf(ToRows(b))), Ladder(b.bids, true))
    ensures PricesThenSentinels(Asks(TableOf(ToRows(b))), Ladder(b.asks, false))
  {
    ZipColumns(Ladder(b.bids, true), Ladder(b.asks, false));
  }

  // ---------------------------------------------------------------------------
  // Reading the size columns
  // ---------------------------------------------------------------------------

  /** Beside each price of one side, the cells of a column give its size. */
  ghost predicate SizesRead(cells: seq<string>, levels: seq<Ladders.Level>) {
    && |levels| <= |cells|
    && forall i :: 0 <= i < |levels| ==> ReadUnits(cells[i]) == Some(10_000_000_000 * levels[i].sz)
  }

  function BidSizes(table: seq<Cells>): (column: seq<string>)
    ensures |column| == |table|
  {
    Each(table, (c: Cells) => c.bidSz)
  }

  function AskSizes(table: seq<Cells>): (column: seq<string>)
    ensures |column| == |table|
  {
    Each(table, (c: Cells) => c.askSz)
  }

  /** Every size of the side can be read from a cell of 10 columns. */
  ghost predicate AllSizesReadable(m: map<nat, nat>) {
    forall p :: p in m ==> SizeReadable(m[p])
  }

  ghost predicate SizesShown(cells: seq<string>, levels: seq<Ladders.Level>) {
    |levels| <= |cells| && forall i :: 0 <= i < |levels| ==> cells[i] == SizeCell(levels[i].sz)
  }

  lemma SizesReadIff(cells: seq<string>, levels: seq<Ladders.Level>, m: map<nat, nat>, descending: bool)
    requires SizesShown(cells, levels) && IsLadder(levels, m, descending)
    ensures SizesRead(cells, levels) <==> AllSizesReadable(m)
  {
    if SizesRead(cells, levels) {
      forall p | p in m
        ensures SizeReadable(m[p])
      {
        var k := FindKey(levels, m, p);
        SizeReadsBackIff(levels[k].sz);
      }
    }
    if AllSizesReadable(m) {
      forall i | 0 <= i < |levels|
        ensures ReadUnits(cells[i]) == Some(10_000_000_000 * levels[i].sz)
      {
        ListsEntry(levels, m, i);
        SizeReadsBackIff(levels[i].sz);
      }
    }
  }

  lemma SizeColumns(b: Book)
    ensures SizesShown(BidSizes(TableOf(ToRows(b))), Ladder(b.bids, true))
    ensures SizesShown(AskSizes(TableOf(ToRows(b))), Ladder(b.asks, false))
  {
    ZipColumns(Ladder(b.bids, true), Ladder(b.asks, false));
  }

  // ---------------------------------------------------------------------------
  // The table
  // ---------------------------------------------------------------------------

  /** The price columns of a table read back as the two sides, best price first. */
  ghost predicate PricesReadBack(table: seq<Cells>, b: Book) {
    ColumnReads(Bids(table), Ladder(b.bids, true)) && ColumnReads(Asks(table), Ladder(b.asks, false))
  }

  /** So do the size columns. */
  ghost predicate SizesReadBack(table: seq<Cells>, b: Book) {
    SizesRead(BidSizes(table), Ladder(b.bids, true)) && SizesRead(AskSizes(table), Ladder(b.asks, false))
  }

  /** That is so exactly when every price, and every size, of the book can be read from its cell. */
  lemma TableReadsBackIff(b: Book)
    ensures PricesReadBack(TableOf(ToRows(b)), b) <==> AllReadable(b.bids) && AllReadable(b.asks)
    ensures SizesReadBack(TableOf(ToRows(b)), b) <==> AllSizesReadable(b.bids) && AllSizesReadable(b.asks)
  {
    PriceColumns(b);
    ColumnReadsIff(Bids(TableOf(ToRows(b))), Ladder(b.bids, true), b.bids, true);
    ColumnReadsIff(Asks(TableOf(ToRows(b))), Ladder(b.asks, false), b.asks, false);
    SizeColumns(b);
    SizesReadIff(BidSizes(TableOf(ToRows(b))), Ladder(b.bids, true), b.bids, true);
    SizesReadIff(AskSizes(TableOf(ToRows(b))), Ladder(b.asks, false), b.asks, false);
  }

  /** The prices that a column shows. */
  function PricesIn(cells: seq<string>): (ps: set<nat>) {
    set i | 0 <= i < |cells| && Parse(cells[i]).Some? :: Parse(cells[i]).value
  }

  lemma ColumnHasPrices(cells: seq<string>, levels: seq<Ladders.Level>, m: map<nat, nat>, descending: bool)
    requires IsLadder(levels, m, descending) && |levels| <= |cells| && ColumnReads(cells, levels)
    ensures PricesIn(cells) == m.Keys
  {
    forall p | p in m
      ensures p in PricesIn(cells)
    {
      var k := FindKey(levels, m, p);
      assert Parse(cells[k]) == Some(p);
    }
    forall p | p in PricesIn(cells)
      ensures p in m
    {
      var i :| 0 <= i < |cells| && Parse(cells[i]).Some? && Parse(cells[i]).value == p;
      ListsAt(levels, m, i);
    }
  }

  /** Where a side has no further level, the table shows the same two numbers. */
  lemma MissingCells(b: Book, i: nat)
    requires i < |ToRows(b)|
    ensures var c := TableOf(ToRows(b))[i];
            && (|b.bids| <= i ==> c.bid == "1.84467440737" && c.bidSz == "1844674407")
            && (|b.asks| <= i ==> c.ask == "1.84467440737" && c.askSz == "1844674407")
  {
    MissingLevels(b, i);
    SentinelCell(SENTINEL);
    MissingSizeCell(SENTINEL);
  }

  // ---------------------------------------------------------------------------
  // What is on the screen in a run
  // ---------------------------------------------------------------------------

  /** In every run, whatever the interleaving: the table made from a render reads back as the book after a whole
      number of messages, prices and sizes, exactly when all of them are readable. */
  lemma ScreenReadsBackIff(u: Setup, evs: seq<Event>, i: nat)
    requires i < |Run(u, evs).renders|
    ensures var s := Run(u, evs);
            var r := s.renders[i];
            && ShowsWholeMessages(u, s, r)
            && var b := Shown(u, s.taken, r);
            && (PricesReadBack(TableOf(r.rows), b) <==> AllReadable(b.bids) && AllReadable(b.asks))
            && (SizesReadBack(TableOf(r.rows), b) <==> AllSizesReadable(b.bids) && AllSizesReadable(b.asks))
  {
    RenderShows(u, evs, i);
    TableReadsBackIff(Shown(u, Run(u, evs).taken, Run(u, evs).renders[i]));
  }

  /** Below 10^8 the columns show exactly the prices of the book. */
  lemma ScreenShowsPrices(u: Setup, evs: seq<Event>, i: nat)
    requires i < |Run(u, evs).renders|
    ensures var s := Run(u, evs);
            var r := s.renders[i];
            && ShowsWholeMessages(u, s, r)
            && var b := Shown(u, s.taken, r);
            (forall p :: p in b.bids.Keys + b.asks.Keys ==> p < 10_000_000_000) ==>
              PricesIn(Bids(TableOf(r.rows))) == b.bids.Keys && PricesIn(Asks(TableOf(r.rows))) == b.asks.Keys
  {
    RenderShows(u, evs, i);
    var b := Shown(u, Run(u, evs).taken, Run(u, evs).renders[i]);
    if forall p :: p in b.bids.Keys + b.asks.Keys ==> p < 10_000_000_000 {
      assert AllReadable(b.bids) && AllReadable(b.asks);
      TableShowsPrices(b);
    }
  }

  lemma TableShowsPrices(b: Book)
    requires AllReadable(b.bids) && AllReadable(b.asks)
    ensures PricesIn(Bids(TableOf(ToRows(b)))) == b.bids.Keys
    ensures PricesIn(Asks(TableOf(ToRows(b)))) == b.asks.Keys
  {
    TableReadsBackIff(b);
    PriceColumns(b);
    ColumnHasPrices(Bids(TableOf(ToRows(b))), Ladder(b.bids, true), b.bids, true);
    ColumnHasPrices(Asks(TableOf(ToRows(b))), Ladder(b.asks, false), b.asks, false);
  }
}
