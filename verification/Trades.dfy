// ui::TradeBox::on_trade: the trades of a message, and the ring that keeps the latest hundred.
module Trades {
  import opened Book
  import opened BookLaws
  import opened ToChars
  import opened Histories
  import opened Messages
  import opened NumberText
  import opened Symbols
  import opened Ticks
  import opened Wrappers

  datatype Aggressor = BUY | SELL

  datatype Trade = Trade(px: nat, sz: nat, id: nat, side: Aggressor, time: TimeField)

  const MAX_LINES: nat := 100

  /** Side::from_str on the value of a one-character field; None stands for either exception. */
  function SideFromStr(text: string): (r: Option<Aggressor>) {
    if text == "1" then Some(BUY) else if text == "2" then Some(SELL) else None
  }

  /** std::from_chars into a uint64_t that is 0 beforehand: the leading digits, or 0 if there are none or
      the number is too large. */
  function ParseId(s: string): (id: nat)
    ensures id <= 0xFFFF_FFFF_FFFF_FFFF
  {
    var n := LeadingNumber(s, 0);
    if n <= 0xFFFF_FFFF_FFFF_FFFF then n else 0
  }

  function LeadingNumber(s: string, n: nat): (r: nat)
    decreases |s|
  {
    if s == [] || !IsDigit(s[0]) then n else LeadingNumber(s[1..], 10 * n + DigitValue(s[0]))
  }

  lemma {:induction false} LeadingSnoc(s: string, c: char, n: nat)
    requires Digits(s) && IsDigit(c)
    ensures LeadingNumber(s + [c], n) == 10 * LeadingNumber(s, n) + DigitValue(c)
    decreases |s|
  {
    if s == [] {
      assert [] + [c] == [c] && LeadingNumber([c], n) == LeadingNumber([], 10 * n + DigitValue(c));
    } else {
      assert (s + [c])[1..] == s[1..] + [c];
      LeadingSnoc(s[1..], c, 10 * n + DigitValue(s[0]));
    }
  }

  lemma {:induction false} LeadingIsValue(s: string)
    requires Digits(s)
    ensures LeadingNumber(s, 0) == IntValue(s)
    decreases |s|
  {
    if s != [] {
      var k := |s| - 1;
      LeadingIsValue(s[..k]);
      LeadingSnoc(s[..k], s[k], 0);
      assert s == s[..k] + [s[k]];
    }
  }

  lemma {:induction false} LeadingStops(d: string, rest: string, n: nat)
    requires Digits(d) && (rest != [] ==> !IsDigit(rest[0]))
    ensures LeadingNumber(d + rest, n) == LeadingNumber(d, n)
    decreases |d|
  {
    if d == [] {
      assert d + rest == rest;
    } else {
      assert (d + rest)[1..] == d[1..] + rest;
      LeadingStops(d[1..], rest, 10 * n + DigitValue(d[0]));
    }
  }

  /** Of any text, the digits in front are the identifier, if they fit 64 bits; otherwise it is 0. */
  lemma TradeIdIsLeadingDigits(d: string, rest: string)
    requires Digits(d) && (rest != [] ==> !IsDigit(rest[0]))
    ensures ParseId(d + rest) == if IntValue(d) <= 0xFFFF_FFFF_FFFF_FFFF then IntValue(d) else 0
  {
    LeadingStops(d, rest, 0);
    LeadingIsValue(d);
  }

  /** Every 64-bit trade identifier is read back; a larger one becomes 0. */
  lemma TradeIdRoundTrip(n: nat)
    ensures ParseId(IntText(n)) == if n <= 0xFFFF_FFFF_FFFF_FFFF then n else 0
  {
    LeadingIsValue(IntText(n));
  }

  function AtMost(n: nat, max: nat): (r: nat) {
    if n < max then n else max
  }

  /** Each part of the time of day is capped before it is printed. */
  function Capped(t: TimeField): (r: TimeField) {
    if t.TimeOfDay? then
      TimeOfDay(AtMost(t.hour, 23), AtMost(t.minute, 59), AtMost(t.second, 59), AtMost(t.micros, 999999))
    else t
  }

  /** What a stretch of code pushed before it ended, normally or by an exception. */
  datatype Pushed = Pushed(trades: seq<Trade>, threw: bool)

  /** The part of the loop body that follows the symbol check. */
  function EntryPushed(e: IncrementEntry): (p: Pushed) {
    if e.entryType.None? then Pushed([], true)
    else if e.entryType.value != TYPE_TRADE || e.aggressor.None? then Pushed([], false)
    else if e.px.None? || e.sz.None? || e.tradeId.None? then Pushed([], true)
    else if SideFromStr(e.aggressor.value).None? || e.time.BadTime? then Pushed([], true)
    else
      Pushed([Trade(ToUint64(e.px.value, PriceTicksPerUnit(BTCUSDT)),
                    ToUint64(e.sz.value, SizeTicksPerUnit(BTCUSDT)),
                    ParseId(e.tradeId.value),
                    SideFromStr(e.aggressor.value).value,
                    Capped(e.time))], false)
  }

  /** Everything pushed from entry i on, with the symbol carried so far. */
  function PushedFrom(m: Message, i: nat, carried: Option<Symbol>): (p: Pushed)
    requires m.Increment? && m.count.Some?
    decreases if i < m.count.value then m.count.value - i else 0
  {
    if m.count.value <= i then Pushed([], false)
    else if |m.entries| <= i then Pushed([], true)
    else match ReadSymbol(m.entries[i], i, carried)
      case None => Pushed([], true)
      case Some(symbol) =>
        var p := if symbol == Some(BTCUSDT) then EntryPushed(m.entries[i]) else Pushed([], false);
        if p.threw then p
        else
          var rest := PushedFrom(m, i + 1, symbol);
          Pushed(p.trades + rest.trades, rest.threw)
  }

  function AllPushed(m: Message): (p: Pushed)
    requires m.Increment?
  {
    if m.count.None? then Pushed([], true) else PushedFrom(m, 0, None)
  }

  /** What was pushed so far and the rest make up the whole. */
  ghost predicate Continues(whole: Pushed, done: seq<Trade>, rest: Pushed) {
    whole == Pushed(done + rest.trades, rest.threw)
  }

  lemma Turn(whole: Pushed, done: seq<Trade>, m: Message, i: nat, carried: Option<Symbol>)
    requires m.Increment? && m.count.Some? && i < m.count.value
    requires Continues(whole, done, PushedFrom(m, i, carried))
    ensures if |m.entries| <= i then whole == Pushed(done, true)
            else match ReadSymbol(m.entries[i], i, carried)
              case None => whole == Pushed(done, true)
              case Some(symbol) =>
                if symbol != Some(BTCUSDT) then Continues(whole, done, PushedFrom(m, i + 1, symbol))
                else if EntryPushed(m.entries[i]).threw then whole == Pushed(done, true)
                else Continues(whole, done + EntryPushed(m.entries[i]).trades, PushedFrom(m, i + 1, symbol))
  {
    assert done + [] == done;
    if i < |m.entries| && ReadSymbol(m.entries[i], i, carried).Some? {
      var symbol := ReadSymbol(m.entries[i], i, carried).value;
      var p := if symbol == Some(BTCUSDT) then EntryPushed(m.entries[i]) else Pushed([], false);
      var rest := PushedFrom(m, i + 1, symbol).trades;
      assert done + (p.trades + rest) == done + p.trades + rest;
    }
  }

  /** on_trade. */
  method OnTrade(ring: Ring<Trade>, m: Message) returns (threw: bool)
    requires ring.Valid() && ring.slots.Length == MAX_LINES && m.Increment?
    modifies ring, ring.slots
    ensures ring.Valid()
    ensures threw == AllPushed(m).threw
    ensures ring.Contents() == Last(old(ring.Contents()) + AllPushed(m).trades, 100)
  {
    ghost var was := ring.Contents();
    assert was + [] == was;
    if m.count.None? {
      return true;
    }
    var symbol: Option<Symbol> := None;
    ghost var done: seq<Trade> := [];
    var i := 0;
    while i < m.count.value
      invariant 0 <= i && ring.Valid()
      invariant 0 < i ==> symbol.Some?
      invariant ring.Contents() == Last(was + done, MAX_LINES)
      invariant Continues(AllPushed(m), done, PushedFrom(m, i, symbol))
    {
      Turn(AllPushed(m), done, m, i, symbol);
      if |m.entries| <= i {
        return true;
      }
      var e := m.entries[i];
      i := i + 1;
      if i == 1 || e.symbol.Some? {
        if e.symbol.None? {
          return true;
        }
        symbol := FromStr(e.symbol.value);
        if symbol.None? {
          return true;
        }
      }
      if symbol.None? {
        assert false;
      }
      if symbol != Some(BTCUSDT) {
        continue;
      }
      var failed := OnEntry(ring, e);
      if failed {
        return true;
      }
      LastOfSum(was, done, EntryPushed(e).trades, MAX_LINES);
      done := done + EntryPushed(e).trades;
    }
    assert done + [] == done;
    return false;
  }

  /** What on_trade does with an entry once its symbol is known to be BTCUSDT. */
  method OnEntry(ring: Ring<Trade>, e: IncrementEntry) returns (threw: bool)
    requires ring.Valid() && ring.slots.Length == MAX_LINES
    modifies ring, ring.slots
    ensures ring.Valid()
    ensures threw == EntryPushed(e).threw
    ensures threw ==> ring.Contents() == old(ring.Contents())
    ensures !threw ==> ring.Contents() == Last(old(ring.Contents()) + EntryPushed(e).trades, MAX_LINES)
  {
    assert old(ring.Contents()) + [] == old(ring.Contents());
    if e.entryType.None? {
      return true;
    }
    if e.entryType.value == TYPE_TRADE && e.aggressor.Some? {
      if e.px.None? {
        return true;
      }
      var price := ToUint64(e.px.value, PriceTicksPerUnit(BTCUSDT));
      if e.sz.None? {
        return true;
      }
      var size := ToUint64(e.sz.value, SizeTicksPerUnit(BTCUSDT));
      if e.tradeId.None? {
        return true;
      }
      var id := ParseId(e.tradeId.value);
      var side := SideFromStr(e.aggressor.value);
      if side.None? {
        return true;
      }
      if e.time.BadTime? {
        return true;
      }
      ring.PushBack(Trade(price, size, id, side.value, Capped(e.time)));
    }
    return false;
  }

  // ---------------------------------------------------------------------------
  // Across messages
  // ---------------------------------------------------------------------------

  /** All trades accepted from a sequence of messages, in order of arrival. */
  function AcceptedTrades(ms: seq<Message>): (ts: seq<Trade>)
    requires forall m :: m in ms ==> m.Increment?
    decreases |ms|
  {
    if ms == [] then [] else AcceptedTrades(ms[..|ms| - 1]) + AllPushed(ms[|ms| - 1]).trades
  }

  lemma AcceptedStep(ms: seq<Message>, k: nat)
    requires k < |ms| && forall m :: m in ms ==> m.Increment?
    ensures AcceptedTrades(ms[..k + 1]) == AcceptedTrades(ms[..k]) + AllPushed(ms[k]).trades
  {
    assert ms[..k + 1][..k] == ms[..k];
  }

  /** The trade worker's loop over the messages it dequeues; an exception ends it. */
  method OnTrades(ring: Ring<Trade>, ms: seq<Message>) returns (handled: nat, threw: bool)
    requires ring.Valid() && ring.slots.Length == MAX_LINES && ring.Contents() == []
    requires forall m :: m in ms ==> m.Increment?
    modifies ring, ring.slots
    ensures ring.Valid() && handled <= |ms|
    ensures ring.Contents() == Last(AcceptedTrades(ms[..handled]), 100)
    ensures forall k :: 0 <= k < handled ==> (AllPushed(ms[k]).threw <==> threw && k == handled - 1)
    ensures !threw ==> handled == |ms|
  {
    handled, threw := 0, false;
    while handled < |ms|
      invariant ring.Valid() && handled <= |ms| && !threw
      invariant forall k :: 0 <= k < handled ==> !AllPushed(ms[k]).threw
      invariant ring.Contents() == Last(AcceptedTrades(ms[..handled]), MAX_LINES)
    {
      AcceptedStep(ms, handled);
      LastOfLast(AcceptedTrades(ms[..handled]), AllPushed(ms[handled]).trades, MAX_LINES);
      threw := OnTrade(ring, ms[handled]);
      handled := handled + 1;
      if threw {
        return;
      }
    }
  }

  /** Entries one after the other, each naming its own symbol. */
  function Folded(es: seq<IncrementEntry>, missing: bool): (p: Pushed)
    decreases |es|
  {
    if es == [] then Pushed([], missing)
    else
      var p := ExplicitPushed(es[0]);
      if p.threw then p
      else
        var rest := Folded(es[1..], missing);
        Pushed(p.trades + rest.trades, rest.threw)
  }

  function ExplicitPushed(e: IncrementEntry): (p: Pushed) {
    if e.symbol.None? || FromStr(e.symbol.value).None? then Pushed([], true)
    else if FromStr(e.symbol.value).value == BTCUSDT then EntryPushed(e)
    else Pushed([], false)
  }

  /** The entries that become a trade: BTCUSDT entries of type trade with an aggressor. */
  predicate IsTrade(e: IncrementEntry) {
    && e.symbol.Some? && FromStr(e.symbol.value) == Some(BTCUSDT)
    && e.entryType == Some('2') && e.aggressor.Some?
  }

  /** What the ring keeps of a trade entry: price in hundredths, size in hundred-thousandths, the time capped
      to a valid one. */
  ghost predicate Records(t: Trade, e: IncrementEntry) {
    && e.px.Some? && t.px == ToUint64(e.px.value, 100)
    && e.sz.Some? && t.sz == ToUint64(e.sz.value, 100_000)
    && e.tradeId.Some? && t.id == ParseId(e.tradeId.value)
    && e.aggressor.Some? && (t.side == BUY <==> e.aggressor.value == "1")
    && (e.time.NoTime? ==> t.time.NoTime?)
    && (e.time.TimeOfDay? ==>
          && t.time.TimeOfDay?
          && t.time.hour == (if e.time.hour <= 23 then e.time.hour else 23)
          && t.time.minute == (if e.time.minute <= 59 then e.time.minute else 59)
          && t.time.second == (if e.time.second <= 59 then e.time.second else 59)
          && t.time.micros == (if e.time.micros <= 999_999 then e.time.micros else 999_999))
  }

  /** A trade entry is pushed, and nothing else, exactly when every field it needs is there and readable. */
  lemma TradePushedIff(e: IncrementEntry)
    requires IsTrade(e)
    ensures !ExplicitPushed(e).threw
            <==> e.px.Some? && e.sz.Some? && e.tradeId.Some? && e.aggressor.value in {"1", "2"} && !e.time.BadTime?
    ensures !ExplicitPushed(e).threw ==> |ExplicitPushed(e).trades| == 1 && Records(ExplicitPushed(e).trades[0], e)
    ensures ExplicitPushed(e).threw ==> ExplicitPushed(e).trades == []
  {
  }

  lemma NoTradeNoPush(e: IncrementEntry)
    requires !IsTrade(e)
    ensures ExplicitPushed(e).trades == []
  {
  }

  /** The entries that are trades. */
  function TradeEntries(es: seq<IncrementEntry>): (r: seq<IncrementEntry>)
    decreases |es|
  {
    if es == [] then [] else (if IsTrade(es[0]) then [es[0]] else []) + TradeEntries(es[1..])
  }

  /** An entry, its symbol written out, that ends on_trade by an exception: its symbol is unreadable, or it is for
      BTCUSDT and has no type, or it is a trade with an aggressor and a field that is absent or unreadable. */
  predicate PushThrows(e: IncrementEntry) {
    || e.symbol.None? || FromStr(e.symbol.value).None?
    || (FromStr(e.symbol.value) == Some(BTCUSDT) && e.entryType.None?)
    || (IsTrade(e) && (|| e.px.None? || e.sz.None? || e.tradeId.None?
                       || e.aggressor.value !in {"1", "2"} || e.time.BadTime?))
  }

  lemma PushThrowsIff(e: IncrementEntry)
    ensures ExplicitPushed(e).threw <==> PushThrows(e)
    ensures PushThrows(e) ==> ExplicitPushed(e).trades == []
  {
  }

  /** The entries before the first that throws. */
  function BeforeThrow(es: seq<IncrementEntry>): (r: seq<IncrementEntry>)
    decreases |es|
  {
    if es == [] || PushThrows(es[0]) then [] else [es[0]] + BeforeThrow(es[1..])
  }

  /** Trade i records entry i, for all of them, and there are no others. */
  ghost predicate RecordsAll(ts: seq<Trade>, es: seq<IncrementEntry>) {
    |ts| == |es| && forall i :: 0 <= i < |ts| ==> Records(ts[i], es[i])
  }

  lemma RecordsMore(t: Trade, ts: seq<Trade>, e: IncrementEntry, es: seq<IncrementEntry>)
    requires Records(t, e) && RecordsAll(ts, es)
    ensures RecordsAll([t] + ts, [e] + es)
  {
  }

  lemma TradesOfFirst(e: IncrementEntry, es: seq<IncrementEntry>)
    ensures TradeEntries([e] + es) == (if IsTrade(e) then [e] else []) + TradeEntries(es)
  {
    assert ([e] + es)[1..] == es;
  }

  lemma FirstRecorded(e: IncrementEntry, ts: seq<Trade>, es: seq<IncrementEntry>)
    requires !PushThrows(e) && RecordsAll(ts, TradeEntries(es))
    ensures RecordsAll(ExplicitPushed(e).trades + ts, TradeEntries([e] + es))
  {
    var p := ExplicitPushed(e);
    PushThrowsIff(e);
    TradesOfFirst(e, es);
    if IsTrade(e) {
      TradePushedIff(e);
      assert p.trades == [p.trades[0]];
      RecordsMore(p.trades[0], ts, e, TradeEntries(es));
    } else {
      NoTradeNoPush(e);
      assert [] + ts == ts && [] + TradeEntries(es) == TradeEntries(es);
    }
  }

  lemma {:induction false} FoldedRecords(es: seq<IncrementEntry>, missing: bool)
    ensures RecordsAll(Folded(es, missing).trades, TradeEntries(BeforeThrow(es)))
    decreases |es|
  {
    if es != [] {
      PushThrowsIff(es[0]);
      FoldedRecords(es[1..], missing);
      if !PushThrows(es[0]) {
        FirstRecorded(es[0], Folded(es[1..], missing).trades, BeforeThrow(es[1..]));
      }
    }
  }

  lemma {:induction false} FoldedThrowsIff(es: seq<IncrementEntry>, missing: bool)
    ensures Folded(es, missing).threw <==> missing || exists i :: 0 <= i < |es| && PushThrows(es[i])
    decreases |es|
  {
    if es != [] {
      PushThrowsIff(es[0]);
      FoldedThrowsIff(es[1..], missing);
      if i :| 0 <= i < |es| && PushThrows(es[i]) {
        assert i > 0 ==> es[1..][i - 1] == es[i];
      }
    }
  }

  /** One turn of the loop pushes what the entry with its symbol written out pushes. */
  lemma PushTurn(m: Message, i: nat, symbol: Option<Symbol>)
    requires m.Increment? && m.count.Some? && i < |Visible(m)| && Carries(m.entries, i, symbol)
    ensures var p, read := ExplicitPushed(Explicit(m.entries)[i]), ReadSymbol(m.entries[i], i, symbol);
            if p.threw then PushedFrom(m, i, symbol) == p
            else
              && read.Some? && Carries(m.entries, i + 1, read.value)
              && var rest := PushedFrom(m, i + 1, read.value);
              PushedFrom(m, i, symbol) == Pushed(p.trades + rest.trades, rest.threw)
  {
    var e := m.entries[i];
    assert EntryPushed(e.(symbol := CarriedSymbol(m.entries, i))) == EntryPushed(e);
  }

  lemma {:induction false} PushedIsFoldedFrom(m: Message, i: nat, symbol: Option<Symbol>)
    requires m.Increment? && m.count.Some? && i <= |Visible(m)|
    requires Carries(m.entries, i, symbol)
    ensures PushedFrom(m, i, symbol) == Folded(Explicit(m.entries)[i..|Visible(m)|], Overrun(m))
    decreases |Visible(m)| - i
  {
    var xs := Explicit(m.entries);
    var rest := xs[i..|Visible(m)|];
    if i == |Visible(m)| {
      assert PushedFrom(m, i, symbol) == Pushed([], Overrun(m));
    } else {
      PushTurn(m, i, symbol);
      assert rest[0] == xs[i] && rest[1..] == xs[i + 1..|Visible(m)|];
      if !ExplicitPushed(xs[i]).threw {
        PushedIsFoldedFrom(m, i + 1, ReadSymbol(m.entries[i], i, symbol).value);
      }
    }
  }

  /** The trades of a message are those of its entries with their symbols written out. */
  lemma TradesAreFolded(m: Message)
    requires m.Increment? && m.count.Some?
    ensures AllPushed(m) == Folded(Explicit(m.entries)[..|Visible(m)|], Overrun(m))
  {
    PushedIsFoldedFrom(m, 0, None);
  }

  /** They record the trade entries before the first entry that throws, each once and in order. */
  lemma TradesRecorded(m: Message)
    requires m.Increment? && m.count.Some?
    ensures RecordsAll(AllPushed(m).trades, TradeEntries(BeforeThrow(Explicit(m.entries)[..|Visible(m)|])))
  {
    TradesAreFolded(m);
    FoldedRecords(Explicit(m.entries)[..|Visible(m)|], Overrun(m));
  }

  /** Exactly when on_trade throws: NoMDEntries is missing or announces too many entries, or an entry throws. A
      BTCUSDT entry that is no trade, or a trade without an aggressor, does not. */
  lemma OnTradeThrowsIff(m: Message)
    requires m.Increment?
    ensures AllPushed(m).threw
            <==> || m.count.None?
                 || |m.entries| < m.count.value
                 || exists i :: 0 <= i < |Visible(m)| && PushThrows(Explicit(m.entries)[i])
    ensures m.count.None? ==> AllPushed(m).trades == []
  {
    if m.count.Some? {
      var xs := Explicit(m.entries)[..|Visible(m)|];
      TradesAreFolded(m);
      FoldedThrowsIff(xs, Overrun(m));
      if i :| 0 <= i < |Visible(m)| && PushThrows(Explicit(m.entries)[i]) {
        assert xs[i] == Explicit(m.entries)[i];
      }
      if i :| 0 <= i < |xs| && PushThrows(xs[i]) {
        assert xs[i] == Explicit(m.entries)[i];
      }
    }
  }
}
