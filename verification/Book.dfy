// What one message does to the two price maps of core::OrderBook, one entry at a time.
module Book {
  import opened Messages
  import opened Symbols
  import opened Ticks
  import opened Wrappers

  datatype Side = Bid | Ask

  /** The two maps of the order book, price ticks to size ticks. */
  datatype Book = Book(bids: map<nat, nat>, asks: map<nat, nat>) {
    function Get(s: Side): (m: map<nat, nat>) {
      match s
      case Bid => bids
      case Ask => asks
    }

    function With(s: Side, m: map<nat, nat>): (b: Book) {
      match s
      case Bid => this.(bids := m)
      case Ask => this.(asks := m)
    }
  }

  const EMPTY_BOOK := Book(map[], map[])

  /** The three ways the code touches a map: clear(), operator[] = and erase(). */
  datatype Op = Wipe(side: Side) | Put(side: Side, px: nat, sz: nat) | Drop(side: Side, px: nat)

  function Do(b: Book, op: Op): (r: Book) {
    match op
    case Wipe(s) => b.With(s, map[])
    case Put(s, px, sz) => b.With(s, b.Get(s)[px := sz])
    case Drop(s, px) => b.With(s, b.Get(s) - {px})
  }

  function DoAll(b: Book, ops: seq<Op>): (r: Book)
    decreases |ops|
  {
    if ops == [] then b else DoAll(Do(b, ops[0]), ops[1..])
  }

  /** What a stretch of code did before it ended, normally or by an exception. */
  datatype Trace = Trace(ops: seq<Op>, threw: bool)

  function SideOf(entryType: char): (s: Option<Side>) {
    if entryType == TYPE_BID then Some(Bid) else if entryType == TYPE_OFFER then Some(Ask) else None
  }

  /** handle_price_level_update. A missing size is noticed only after the side was cleared. */
  function LevelTrace(s: Side, action: ActionField, e: IncrementEntry, clearNeeded: bool): (t: Trace) {
    if e.px.None? || !action.Action? then Trace([], true)
    else
      var px := ToUint64(e.px.value, PriceTicksPerUnit(BTCUSDT));
      if action.value == ACTION_DELETE then Trace([Drop(s, px)], false)
      else if action.value == ACTION_CHANGE || action.value == ACTION_NEW then
        var wipe := if action.value == ACTION_CHANGE && clearNeeded then [Wipe(s)] else [];
        if e.sz.None? then Trace(wipe, true)
        else Trace(wipe + [Put(s, px, ToUint64(e.sz.value, SizeTicksPerUnit(BTCUSDT)))], false)
      else Trace([], false)
  }

  /** The part of apply_increment's loop body that follows the symbol check. */
  function BitcoinTrace(e: IncrementEntry, clearNeeded: bool): (t: Trace) {
    if e.entryType.None? || e.action.NoAction? then Trace([], true)
    else match SideOf(e.entryType.value)
      case Some(s) => LevelTrace(s, e.action, e, clearNeeded)
      case None => Trace([], false)
  }

  /** Where the code is inside a message: before its header, about to do entry i, or finished. */
  datatype Cursor = Begin | At(i: nat, symbol: Option<Symbol>) | Done | Threw

  datatype Move = Move(ops: seq<Op>, next: Cursor)

  function After(t: Trace, next: Cursor): (v: Move) {
    Move(t.ops, if t.threw then Threw else next)
  }

  /** The symbol in force for an entry: read if present or if the entry is first, else carried over. */
  function ReadSymbol(e: IncrementEntry, i: nat, carried: Option<Symbol>): (r: Option<Option<Symbol>>) {
    if i == 0 || e.symbol.Some? then
      if e.symbol.None? || FromStr(e.symbol.value).None? then None else Some(FromStr(e.symbol.value))
    else Some(carried)
  }

  function IncrementMove(e: IncrementEntry, i: nat, carried: Option<Symbol>, clearNeeded: bool): (v: Move) {
    match ReadSymbol(e, i, carried)
    case None => Move([], Threw)
    case Some(symbol) =>
      if symbol == Some(BTCUSDT) then After(BitcoinTrace(e, clearNeeded), At(i + 1, symbol))
      else Move([], At(i + 1, symbol))
  }

  /** The loop body of apply_snapshot. */
  function SnapshotEntryTrace(e: SnapshotEntry): (t: Trace) {
    if e.entryType.None? || e.px.None? || e.sz.None? then Trace([], true)
    else
      var px := ToUint64(e.px.value, PriceTicksPerUnit(BTCUSDT));
      var sz := ToUint64(e.sz.value, SizeTicksPerUnit(BTCUSDT));
      match SideOf(e.entryType.value)
      case Some(s) => Trace([Put(s, px, sz)], false)
      case None => Trace([], false)
  }

  /** A snapshot that reaches the two clear() calls. */
  predicate Accepted(m: Message) {
    m.Snapshot? && m.symbol.Some? && FromStr(m.symbol.value) == Some(BTCUSDT)
  }

  /** One step of apply_snapshot or apply_increment: the header, one entry, or the end of the loop. */
  function Step(m: Message, c: Cursor, clearNeeded: bool): (v: Move)
    requires c.Begin? || c.At?
  {
    match c
    case Begin =>
      if m.Increment? then Move([], if m.count.None? then Threw else At(0, None))
      else if m.symbol.None? || FromStr(m.symbol.value).None? then Move([], Threw)
      else if !Accepted(m) then Move([], Done)
      else Move([Wipe(Bid), Wipe(Ask)], if m.count.None? then Threw else At(0, None))
    case At(i, symbol) =>
      if m.count.None? || m.count.value <= i then Move([], Done)
      else if m.Increment? then
        if |m.entries| <= i then Move([], Threw)
        else IncrementMove(m.entries[i], i, symbol, clearNeeded)
      else
        if |m.groups| <= i then Move([], Threw)
        else After(SnapshotEntryTrace(m.groups[i]), At(i + 1, None))
  }

  /** How many steps may still follow. */
  function StepsLeft(m: Message, c: Cursor): (n: nat) {
    var count := if m.count.Some? && 0 <= m.count.value then m.count.value else 0;
    match c
    case Begin => count + 2
    case At(i, _) => if i <= count then count - i + 1 else 1
    case Done => 0
    case Threw => 0
  }

  /** Everything the message still does from c on. */
  function TraceFrom(m: Message, c: Cursor, clearNeeded: bool): (t: Trace)
    decreases StepsLeft(m, c)
  {
    if c.Done? then Trace([], false)
    else if c.Threw? then Trace([], true)
    else
      var v := Step(m, c, clearNeeded);
      var rest := TraceFrom(m, v.next, clearNeeded);
      Trace(v.ops + rest.ops, rest.threw)
  }

  function MessageTrace(m: Message, clearNeeded: bool): (t: Trace) {
    TraceFrom(m, Begin, clearNeeded)
  }

  datatype Outcome = Outcome(book: Book, threw: bool)

  /** apply_snapshot or apply_increment as a whole. */
  function Apply(b: Book, m: Message, clearNeeded: bool): (r: Outcome) {
    var t := MessageTrace(m, clearNeeded);
    Outcome(DoAll(b, t.ops), t.threw)
  }

  /** The book after every message of a sequence; used where none of them throws. */
  function ApplyAll(b: Book, ms: seq<Message>, clearNeeded: bool): (r: Book)
    decreases |ms|
  {
    if ms == [] then b else Apply(ApplyAll(b, ms[..|ms| - 1], clearNeeded), ms[|ms| - 1], clearNeeded).book
  }

  lemma {:induction false} DoAllConcat(b: Book, xs: seq<Op>, ys: seq<Op>)
    ensures DoAll(b, xs + ys) == DoAll(DoAll(b, xs), ys)
    decreases |xs|
  {
    if xs == [] {
      assert xs + ys == ys;
    } else {
      assert (xs + ys)[1..] == xs[1..] + ys;
      DoAllConcat(Do(b, xs[0]), xs[1..], ys);
    }
  }

  lemma DoOne(b: Book, x: Op)
    ensures DoAll(b, [x]) == Do(b, x)
  {
    assert DoAll(b, [x]) == DoAll(Do(b, x), []);
  }

  lemma DoTwo(b: Book, x: Op, y: Op)
    ensures DoAll(b, [x, y]) == Do(Do(b, x), y)
    ensures DoAll(b, [x] + [y]) == Do(Do(b, x), y)
  {
    assert [x] + [y] == [x, y] && [x, y][1..] == [y];
    DoOne(Do(b, x), y);
  }

  /** How the message ends if the rest of it, from c on, is applied to b. */
  function Finish(b: Book, m: Message, c: Cursor, clearNeeded: bool): (r: Outcome) {
    var t := TraceFrom(m, c, clearNeeded);
    Outcome(DoAll(b, t.ops), t.threw)
  }

  lemma FinishEnded(b: Book, m: Message, clearNeeded: bool)
    ensures Finish(b, m, Done, clearNeeded) == Outcome(b, false)
    ensures Finish(b, m, Threw, clearNeeded) == Outcome(b, true)
  {
  }

  /** A step does not change how the message will end. */
  lemma FinishStep(b: Book, m: Message, c: Cursor, clearNeeded: bool)
    requires c.Begin? || c.At?
    ensures Finish(b, m, c, clearNeeded)
            == Finish(DoAll(b, Step(m, c, clearNeeded).ops), m, Step(m, c, clearNeeded).next, clearNeeded)
  {
    var v := Step(m, c, clearNeeded);
    DoAllConcat(b, v.ops, TraceFrom(m, v.next, clearNeeded).ops);
  }

  /** Each step brings the end of the message closer. */
  lemma StepProgress(m: Message, c: Cursor, clearNeeded: bool)
    requires c.Begin? || c.At?
    ensures StepsLeft(m, Step(m, c, clearNeeded).next) < StepsLeft(m, c)
  {
  }
}
