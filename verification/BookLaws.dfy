// Laws of the order book over whole messages and whole streams.
module BookLaws {
  import opened Book
  import opened Messages
  import opened Symbols
  import opened Ticks
  import opened Wrappers

  // ---------------------------------------------------------------------------
  // Levels and streams
  // ---------------------------------------------------------------------------

  predicate Decides(op: Op, s: Side, px: nat) {
    op.side == s && (op.Wipe? || op.px == px)
  }

  function Level(b: Book, s: Side, px: nat): (r: Option<nat>) {
    if px in b.Get(s) then Some(b.Get(s)[px]) else None
  }

  lemma LevelAfterOp(b: Book, op: Op, s: Side, px: nat)
    ensures Level(Do(b, op), s, px)
            == if !Decides(op, s, px) then Level(b, s, px) else if op.Put? then Some(op.sz) else None
  {
  }

  /** All operations of a stream, in order. */
  function StreamOps(ms: seq<Message>, clearNeeded: bool): (ops: seq<Op>)
    decreases |ms|
  {
    if ms == [] then []
    else StreamOps(ms[..|ms| - 1], clearNeeded) + MessageTrace(ms[|ms| - 1], clearNeeded).ops
  }

  lemma {:induction false} StreamIsItsOps(b: Book, ms: seq<Message>, clearNeeded: bool)
    ensures ApplyAll(b, ms, clearNeeded) == DoAll(b, StreamOps(ms, clearNeeded))
    decreases |ms|
  {
    if ms != [] {
      var init := ms[..|ms| - 1];
      StreamIsItsOps(b, init, clearNeeded);
      DoAllConcat(b, StreamOps(init, clearNeeded), MessageTrace(ms[|ms| - 1], clearNeeded).ops);
    }
  }

  // ---------------------------------------------------------------------------
  // Symbol carry: an increment is a fold over entries that name their symbol
  // ---------------------------------------------------------------------------

  /** The symbol text of entry i: its own, or that of the closest earlier entry that has one. */
  function CarriedSymbol(es: seq<IncrementEntry>, i: nat): (r: Option<string>)
    requires i < |es|
  {
    if es[i].symbol.Some? || i == 0 then es[i].symbol else CarriedSymbol(es, i - 1)
  }

  lemma {:induction false} CarriedSymbolIsLatest(es: seq<IncrementEntry>, i: nat, j: nat)
    requires j <= i < |es|
    requires es[j].symbol.Some? || j == 0
    requires forall k :: j < k <= i ==> es[k].symbol.None?
    ensures CarriedSymbol(es, i) == es[j].symbol
  {
    if j < i {
      CarriedSymbolIsLatest(es, i - 1, j);
    }
  }

  /** The same entries, each with its symbol written out. */
  function Explicit(es: seq<IncrementEntry>): (r: seq<IncrementEntry>)
    ensures |r| == |es|
  {
    seq(|es|, i requires 0 <= i < |es| => es[i].(symbol := CarriedSymbol(es, i)))
  }

  /** What an entry does that names its own symbol. */
  function EntryTrace(e: IncrementEntry, clearNeeded: bool): (t: Trace) {
    if e.symbol.None? || FromStr(e.symbol.value).None? then Trace([], true)
    else if FromStr(e.symbol.value).value == BTCUSDT then BitcoinTrace(e, clearNeeded)
    else Trace([], false)
  }

  /** Entries one after the other, none depending on another, up to the first that throws. */
  function Fold(es: seq<IncrementEntry>, missing: bool, clearNeeded: bool): (t: Trace)
    decreases |es|
  {
    if es == [] then Trace([], missing)
    else
      var t := EntryTrace(es[0], clearNeeded);
      if t.threw then t
      else
        var rest := Fold(es[1..], missing, clearNeeded);
        Trace(t.ops + rest.ops, rest.threw)
  }

  /** The entries that the loop reaches if nothing throws. */
  function Visible(m: Message): (es: seq<IncrementEntry>)
    requires m.Increment? && m.count.Some?
  {
    if m.count.value < 0 then [] else if m.count.value <= |m.entries| then m.entries[..m.count.value] else m.entries
  }

  /** The loop runs past the last entry. */
  predicate Overrun(m: Message)
    requires m.Increment? && m.count.Some?
  {
    |m.entries| < m.count.value
  }

  /** The carried symbol the loop holds when it reaches entry i without a throw. */
  ghost predicate Carries(es: seq<IncrementEntry>, i: nat, symbol: Option<Symbol>)
    requires i <= |es|
  {
    if i == 0 then symbol.None?
    else symbol.Some? && CarriedSymbol(es, i - 1).Some? && FromStr(CarriedSymbol(es, i - 1).value) == symbol
  }

  /** One turn of the loop does what the entry with its symbol written out does. */
  lemma LoopTurn(m: Message, i: nat, symbol: Option<Symbol>, clearNeeded: bool)
    requires m.Increment? && m.count.Some? && i < |Visible(m)| && Carries(m.entries, i, symbol)
    ensures var v := Step(m, At(i, symbol), clearNeeded);
            var t := EntryTrace(Explicit(m.entries)[i], clearNeeded);
            && v.ops == t.ops
            && if t.threw then v.next == Threw
               else v.next.At? && v.next.i == i + 1 && Carries(m.entries, i + 1, v.next.symbol)
  {
    var e := m.entries[i];
    var x := e.(symbol := CarriedSymbol(m.entries, i));
    assert BitcoinTrace(x, clearNeeded) == BitcoinTrace(e, clearNeeded);
  }

  lemma {:induction false} LoopIsFoldFrom(m: Message, i: nat, symbol: Option<Symbol>, clearNeeded: bool)
    requires m.Increment? && m.count.Some? && i <= |Visible(m)|
    requires Carries(m.entries, i, symbol)
    ensures TraceFrom(m, At(i, symbol), clearNeeded)
            == Fold(Explicit(m.entries)[i..|Visible(m)|], Overrun(m), clearNeeded)
    decreases |Visible(m)| - i
  {
    var xs := Explicit(m.entries);
    var rest := xs[i..|Visible(m)|];
    var c := At(i, symbol);
    if i == |Visible(m)| {
      assert TraceFrom(m, c, clearNeeded) == Trace([], Overrun(m));
    } else {
      LoopTurn(m, i, symbol, clearNeeded);
      var v := Step(m, c, clearNeeded);
      assert rest[0] == xs[i] && rest[1..] == xs[i + 1..|Visible(m)|];
      if v.next.Threw? {
        assert v.ops + [] == v.ops;
      } else {
        LoopIsFoldFrom(m, i + 1, v.next.symbol, clearNeeded);
      }
    }
  }

  /** An increment does exactly the fold of its entries with their symbols written out. */
  lemma IncrementIsFold(m: Message, clearNeeded: bool)
    requires m.Increment? && m.count.Some?
    ensures MessageTrace(m, clearNeeded) == Fold(Explicit(m.entries)[..|Visible(m)|], Overrun(m), clearNeeded)
  {
    LoopIsFoldFrom(m, 0, None, clearNeeded);
    assert MessageTrace(m, clearNeeded).ops == TraceFrom(m, At(0, None), clearNeeded).ops;
  }

  lemma ExplicitTwice(es: seq<IncrementEntry>)
    ensures Explicit(Explicit(es)) == Explicit(es)
  {
    forall i | 0 <= i < |es|
      ensures CarriedSymbol(Explicit(es), i) == CarriedSymbol(es, i)
    {
      CarriedInExplicit(es, i);
    }
  }

  lemma {:induction false} CarriedInExplicit(es: seq<IncrementEntry>, i: nat)
    requires i < |es|
    ensures CarriedSymbol(Explicit(es), i) == CarriedSymbol(es, i)
  {
    if i > 0 {
      CarriedInExplicit(es, i - 1);
    }
  }

  /** Writing the carried symbol on every entry changes nothing, not even where an exception strikes. */
  lemma SymbolCarry(b: Book, m: Message, clearNeeded: bool)
    requires m.Increment?
    ensures MessageTrace(m.(entries := Explicit(m.entries)), clearNeeded) == MessageTrace(m, clearNeeded)
    ensures Apply(b, m.(entries := Explicit(m.entries)), clearNeeded) == Apply(b, m, clearNeeded)
  {
    var x := m.(entries := Explicit(m.entries));
    if m.count.Some? {
      IncrementIsFold(m, clearNeeded);
      IncrementIsFold(x, clearNeeded);
      ExplicitTwice(m.entries);
    } else {
      assert Step(m, Begin, clearNeeded) == Step(x, Begin, clearNeeded) == Move([], Threw);
      assert TraceFrom(m, Threw, clearNeeded) == TraceFrom(x, Threw, clearNeeded) == Trace([], true);
    }
  }

  /** Where the code is after k steps of a message. */
  function CursorAfter(m: Message, k: nat, clearNeeded: bool): (c: Cursor) {
    if k == 0 then Begin
    else
      var c := CursorAfter(m, k - 1, clearNeeded);
      if c.Begin? || c.At? then Step(m, c, clearNeeded).next else c
  }

  lemma {:induction false} LoopCarries(m: Message, k: nat, clearNeeded: bool)
    requires m.Increment? && m.count.Some?
    ensures var c := CursorAfter(m, k, clearNeeded);
            c.At? ==> c.i <= |Visible(m)| && Carries(m.entries, c.i, c.symbol)
  {
    if k > 0 {
      LoopCarries(m, k - 1, clearNeeded);
      var c := CursorAfter(m, k - 1, clearNeeded);
      if c.At? && c.i < |Visible(m)| {
        LoopTurn(m, c.i, c.symbol, clearNeeded);
      }
    }
  }

  /** However far the loop gets, it never holds an entry without a symbol for it. */
  lemma {:induction false} MissingSymbolUnreachable(m: Message, k: nat, clearNeeded: bool)
    requires m.Increment? && m.count.Some?
    ensures var c := CursorAfter(m, k, clearNeeded);
            c.At? && c.i < |Visible(m)| ==> ReadSymbol(m.entries[c.i], c.i, c.symbol) != Some(None)
  {
    LoopCarries(m, k, clearNeeded);
  }

  predicate NamesEther(e: IncrementEntry) {
    e.symbol.Some? && FromStr(e.symbol.value) == Some(ETHUSDT)
  }

  function WithoutEther(es: seq<IncrementEntry>): (r: seq<IncrementEntry>)
    decreases |es|
  {
    if es == [] then []
    else (if NamesEther(es[0]) then [] else [es[0]]) + WithoutEther(es[1..])
  }

  lemma {:induction false} FoldWithoutEther(es: seq<IncrementEntry>, missing: bool, clearNeeded: bool)
    ensures Fold(WithoutEther(es), missing, clearNeeded) == Fold(es, missing, clearNeeded)
    decreases |es|
  {
    if es != [] {
      FoldWithoutEther(es[1..], missing, clearNeeded);
      var r := WithoutEther(es[1..]);
      if !NamesEther(es[0]) {
        assert ([es[0]] + r)[1..] == r;
      } else {
        assert [] + r == r;
      }
    }
  }

  /** No entry without a symbol follows one that has one. */
  ghost predicate WrittenOut(es: seq<IncrementEntry>) {
    forall i, j :: 0 <= i < j < |es| && es[j].symbol.None? ==> es[i].symbol.None?
  }

  lemma {:induction false} CarriesOn(es: seq<IncrementEntry>, i: nat, j: nat)
    requires i <= j < |es| && CarriedSymbol(es, i).Some?
    ensures CarriedSymbol(es, j).Some?
    decreases j
  {
    if i < j {
      CarriesOn(es, i, j - 1);
    }
  }

  lemma ExplicitIsWrittenOut(es: seq<IncrementEntry>, n: nat)
    requires n <= |es|
    ensures WrittenOut(Explicit(es)[..n])
  {
    forall i, j | 0 <= i < j < n && CarriedSymbol(es, j).None?
      ensures CarriedSymbol(es, i).None?
    {
      if CarriedSymbol(es, i).Some? {
        CarriesOn(es, i, j);
      }
    }
  }

  lemma {:induction false} CarriedInWrittenOut(es: seq<IncrementEntry>, i: nat)
    requires WrittenOut(es) && i < |es|
    ensures CarriedSymbol(es, i) == es[i].symbol
  {
    if i > 0 {
      CarriedInWrittenOut(es, i - 1);
    }
  }

  lemma WrittenOutIsExplicit(es: seq<IncrementEntry>)
    requires WrittenOut(es)
    ensures Explicit(es) == es
  {
    forall i | 0 <= i < |es|
      ensures Explicit(es)[i] == es[i]
    {
      CarriedInWrittenOut(es, i);
    }
  }

  lemma {:induction false} WithoutEtherComesFrom(es: seq<IncrementEntry>, e: IncrementEntry)
    requires e in WithoutEther(es)
    ensures e in es
    decreases |es|
  {
    if es[0] != e {
      WithoutEtherComesFrom(es[1..], e);
    }
  }

  lemma {:induction false} WithoutEtherWrittenOut(es: seq<IncrementEntry>)
    requires WrittenOut(es)
    ensures WrittenOut(WithoutEther(es))
    decreases |es|
  {
    if es != [] {
      var rest := WithoutEther(es[1..]);
      WithoutEtherWrittenOut(es[1..]);
      if !NamesEther(es[0]) {
        forall j | 0 <= j < |rest| && rest[j].symbol.None?
          ensures es[0].symbol.None?
        {
          WithoutEtherComesFrom(es[1..], rest[j]);
        }
      } else {
        assert [] + rest == rest;
      }
    }
  }

  /** An increment of the entries that the loop reaches, symbols written out and ETHUSDT left out. */
  function BitcoinOnly(m: Message): (r: Message)
    requires m.Increment? && m.count.Some?
  {
    var es := WithoutEther(Explicit(m.entries)[..|Visible(m)|]);
    Increment(Some(if Overrun(m) then |es| + 1 else |es|), es)
  }

  /** ETHUSDT entries change nothing: without them the message leaves the same book and throws alike. */
  lemma EtherChangesNothing(b: Book, m: Message, clearNeeded: bool)
    requires m.Increment? && m.count.Some?
    ensures MessageTrace(BitcoinOnly(m), clearNeeded) == MessageTrace(m, clearNeeded)
    ensures Apply(b, BitcoinOnly(m), clearNeeded) == Apply(b, m, clearNeeded)
  {
    var n, xs := BitcoinOnly(m), Explicit(m.entries)[..|Visible(m)|];
    ExplicitIsWrittenOut(m.entries, |Visible(m)|);
    WithoutEtherWrittenOut(xs);
    WrittenOutIsExplicit(n.entries);
    IncrementIsFold(m, clearNeeded);
    IncrementIsFold(n, clearNeeded);
    assert Visible(n) == n.entries && Explicit(n.entries)[..|Visible(n)|] == n.entries;
    FoldWithoutEther(xs, Overrun(m), clearNeeded);
  }

  // ---------------------------------------------------------------------------
  // Exceptions
  // ---------------------------------------------------------------------------

  ghost predicate NoThrow(es: seq<IncrementEntry>, clearNeeded: bool) {
    forall j :: 0 <= j < |es| ==> !EntryTrace(es[j], clearNeeded).threw
  }

  lemma {:induction false} FoldConcat(xs: seq<IncrementEntry>, ys: seq<IncrementEntry>, missing: bool,
                                      clearNeeded: bool)
    requires NoThrow(xs, clearNeeded)
    ensures var first, rest := Fold(xs, false, clearNeeded), Fold(ys, missing, clearNeeded);
            !first.threw && Fold(xs + ys, missing, clearNeeded) == Trace(first.ops + rest.ops, rest.threw)
    decreases |xs|
  {
    if xs == [] {
      assert xs + ys == ys;
      assert [] + Fold(ys, missing, clearNeeded).ops == Fold(ys, missing, clearNeeded).ops;
    } else {
      assert (xs + ys)[0] == xs[0] && (xs + ys)[1..] == xs[1..] + ys;
      var init := xs[1..];
      assert NoThrow(init, clearNeeded) by {
        forall j | 0 <= j < |init|
          ensures !EntryTrace(init[j], clearNeeded).threw
        {
          assert init[j] == xs[j + 1];
        }
      }
      FoldConcat(init, ys, missing, clearNeeded);
      Regroup(EntryTrace(xs[0], clearNeeded).ops, Fold(init, false, clearNeeded).ops,
              Fold(ys, missing, clearNeeded).ops);
    }
  }

  lemma Regroup<T>(xs: seq<T>, ys: seq<T>, zs: seq<T>)
    ensures xs + (ys + zs) == xs + ys + zs
  {
  }

  /** A CHANGE in clear mode that has everything but a size: its side is emptied before the throw. */
  predicate ClearsThenThrows(e: IncrementEntry, clearNeeded: bool) {
    && clearNeeded && e.symbol.Some? && FromStr(e.symbol.value) == Some(BTCUSDT)
    && e.entryType.Some? && SideOf(e.entryType.value).Some?
    && e.action == Action(ACTION_CHANGE) && e.px.Some? && e.sz.None?
  }

  function ThrowingEntry(b: Book, e: IncrementEntry, clearNeeded: bool): (r: Book) {
    if ClearsThenThrows(e, clearNeeded) then b.With(SideOf(e.entryType.value).value, map[]) else b
  }

  lemma PartialEntry(b: Book, e: IncrementEntry, clearNeeded: bool)
    requires EntryTrace(e, clearNeeded).threw
    ensures DoAll(b, EntryTrace(e, clearNeeded).ops) == ThrowingEntry(b, e, clearNeeded)
  {
    if ClearsThenThrows(e, clearNeeded) {
      DoOne(b, Wipe(SideOf(e.entryType.value).value));
    }
  }

  lemma FoldThrows(es: seq<IncrementEntry>, i: nat, missing: bool, clearNeeded: bool)
    requires i < |es| && EntryTrace(es[i], clearNeeded).threw && NoThrow(es[..i], clearNeeded)
    ensures Fold(es, missing, clearNeeded)
            == Trace(Fold(es[..i], false, clearNeeded).ops + EntryTrace(es[i], clearNeeded).ops, true)
    ensures !Fold(es[..i], false, clearNeeded).threw
  {
    assert es == es[..i] + es[i..];
    FoldConcat(es[..i], es[i..], missing, clearNeeded);
  }

  /** The increment with its first i entries only. */
  function UpTo(m: Message, i: nat): (r: Message)
    requires m.Increment?
  {
    Increment(Some(i), m.entries)
  }

  /** If entry i is the first to throw, the message leaves what it would have left had it ended before i,
      except that a CHANGE without a size in clear mode has emptied its side. */
  lemma ThrowKeepsPrefix(b: Book, m: Message, i: nat, clearNeeded: bool)
    requires m.Increment? && m.count.Some? && i < |Visible(m)|
    requires EntryTrace(Explicit(m.entries)[i], clearNeeded).threw
    requires NoThrow(Explicit(m.entries)[..i], clearNeeded)
    ensures var before := Apply(b, UpTo(m, i), clearNeeded);
            && !before.threw
            && Apply(b, m, clearNeeded)
               == Outcome(ThrowingEntry(before.book, Explicit(m.entries)[i], clearNeeded), true)
  {
    var xs, short := Explicit(m.entries)[..|Visible(m)|], UpTo(m, i);
    assert xs[..i] == Explicit(m.entries)[..i];
    IncrementIsFold(m, clearNeeded);
    IncrementIsFold(short, clearNeeded);
    FoldThrows(xs, i, Overrun(m), clearNeeded);
    DoAllConcat(b, Fold(xs[..i], false, clearNeeded).ops, EntryTrace(xs[i], clearNeeded).ops);
    PartialEntry(Apply(b, short, clearNeeded).book, xs[i], clearNeeded);
  }

  /** If no entry throws but more entries are announced than there are, the message leaves what all of its
      entries do. */
  lemma OverrunKeepsAll(b: Book, m: Message, clearNeeded: bool)
    requires m.Increment? && m.count.Some? && Overrun(m) && NoThrow(Explicit(m.entries), clearNeeded)
    ensures var all := Apply(b, UpTo(m, |m.entries|), clearNeeded);
            !all.threw && Apply(b, m, clearNeeded) == Outcome(all.book, true)
  {
    var xs := Explicit(m.entries);
    IncrementIsFold(m, clearNeeded);
    IncrementIsFold(UpTo(m, |m.entries|), clearNeeded);
    assert xs[..|xs|] == xs && xs + [] == xs;
    FoldConcat(xs, [], true, clearNeeded);
    FoldConcat(xs, [], false, clearNeeded);
    var ops := Fold(xs, false, clearNeeded).ops;
    assert ops + [] == ops;
  }

  // ---------------------------------------------------------------------------
  // Symbol texts
  // ---------------------------------------------------------------------------

  /** Both fields are absent, or the code converts their texts alike. */
  predicate ReadAlike(x: Option<string>, y: Option<string>) {
    if x.None? || y.None? then x == y else FromStr(x.value) == FromStr(y.value)
  }

  /** The same message but for symbol texts that the code converts alike. */
  ghost predicate SameButSymbols(m: Message, n: Message) {
    if m.Snapshot? || n.Snapshot? then
      && m.Snapshot? && n.Snapshot? && m.count == n.count && m.groups == n.groups
      && ReadAlike(m.symbol, n.symbol)
    else
      && m.count == n.count && |m.entries| == |n.entries|
      && forall i :: 0 <= i < |m.entries| ==>
           n.entries[i] == m.entries[i].(symbol := n.entries[i].symbol)
           && ReadAlike(m.entries[i].symbol, n.entries[i].symbol)
  }

  lemma SameStepAlike(m: Message, n: Message, c: Cursor, clearNeeded: bool)
    requires SameButSymbols(m, n) && (c.Begin? || c.At?)
    ensures Step(m, c, clearNeeded) == Step(n, c, clearNeeded)
  {
    if m.Increment? && c.At? && c.i < |m.entries| {
      var d, e := m.entries[c.i], n.entries[c.i];
      assert BitcoinTrace(d, clearNeeded) == BitcoinTrace(e, clearNeeded);
      assert ReadSymbol(d, c.i, c.symbol) == ReadSymbol(e, c.i, c.symbol);
    }
  }

  lemma {:induction false} TraceAlike(m: Message, n: Message, c: Cursor, clearNeeded: bool)
    requires SameButSymbols(m, n)
    ensures TraceFrom(m, c, clearNeeded) == TraceFrom(n, c, clearNeeded)
    decreases StepsLeft(m, c)
  {
    if c.Begin? || c.At? {
      SameStepAlike(m, n, c, clearNeeded);
      TraceAlike(m, n, Step(m, c, clearNeeded).next, clearNeeded);
    }
  }

  function RelabelText(x: Option<string>, text: string): (r: Option<string>) {
    if x == Some(text) then Some("BTCUSDT") else x
  }

  /** The message with one symbol text replaced by BTCUSDT wherever it stands. */
  function Relabel(m: Message, text: string): (r: Message) {
    if m.Snapshot? then m.(symbol := RelabelText(m.symbol, text))
    else m.(entries := seq(|m.entries|, i requires 0 <= i < |m.entries| =>
      m.entries[i].(symbol := RelabelText(m.entries[i].symbol, text))))
  }

  /** Seven characters starting with B are BTCUSDT to the book, in every message and place. */
  lemma TakenForBitcoin(b: Book, m: Message, text: string, clearNeeded: bool)
    requires |text| == 7 && text[0] == 'B'
    ensures Apply(b, Relabel(m, text), clearNeeded) == Apply(b, m, clearNeeded)
  {
    assert "BTCUSDT"[0] == 'B';
    TraceAlike(m, Relabel(m, text), Begin, clearNeeded);
  }

  /** A field as the documented conversion sees it: a text that is not a name is one that is refused. */
  function DocumentedText(x: Option<string>): (r: Option<string>) {
    if x.None? || Intended(x.value).Some? then x else Some("")
  }

  /** The message as the documented conversion sees it. */
  function Documented(m: Message): (r: Message) {
    if m.Snapshot? then m.(symbol := DocumentedText(m.symbol))
    else m.(entries := seq(|m.entries|, i requires 0 <= i < |m.entries| =>
      m.entries[i].(symbol := DocumentedText(m.entries[i].symbol))))
  }

  predicate TextWellRead(x: Option<string>) {
    x.Some? ==> WellRead(x.value)
  }

  predicate TextsWellRead(m: Message) {
    if m.Snapshot? then TextWellRead(m.symbol)
    else forall i :: 0 <= i < |m.entries| ==> TextWellRead(m.entries[i].symbol)
  }

  lemma DocumentedTextAlike(x: Option<string>)
    requires TextWellRead(x)
    ensures ReadAlike(x, DocumentedText(x))
  {
    if x.Some? {
      AsIntendedIff(x.value);
    }
  }

  /** A message is applied as the documented symbol conversion has it if every text in it is well read. */
  lemma AppliedAsDocumented(b: Book, m: Message, clearNeeded: bool)
    requires TextsWellRead(m)
    ensures Apply(b, Documented(m), clearNeeded) == Apply(b, m, clearNeeded)
  {
    if m.Snapshot? {
      DocumentedTextAlike(m.symbol);
    } else {
      forall i | 0 <= i < |m.entries|
        ensures ReadAlike(m.entries[i].symbol, Documented(m).entries[i].symbol)
      {
        DocumentedTextAlike(m.entries[i].symbol);
      }
    }
    TraceAlike(m, Documented(m), Begin, clearNeeded);
  }

  /** A complete NEW of one level, the only entry of its message. */
  function OneNew(text: string, s: Side, px: WirePx, sz: WireSz): (m: Message) {
    Increment(Some(1), [IncrementEntry(Some(text), Some(if s == Bid then TYPE_BID else TYPE_OFFER), Action(ACTION_NEW),
                                       Some(px), Some(sz), None, None, NoTime)])
  }

  lemma OneNewApplied(b: Book, text: string, s: Side, px: WirePx, sz: WireSz, clearNeeded: bool)
    ensures Apply(b, OneNew(text, s, px, sz), clearNeeded).book
            == if FromStr(text) == Some(BTCUSDT) then Do(b, Put(s, ToUint64(px, 100), ToUint64(sz, 100_000))) else b
  {
    var m := OneNew(text, s, px, sz);
    var e := m.entries[0];
    IncrementIsFold(m, clearNeeded);
    assert Explicit(m.entries)[..1] == [e];
    var t := EntryTrace(e, clearNeeded);
    assert t.ops + [] == t.ops;
    assert MessageTrace(m, clearNeeded).ops == t.ops;
    if FromStr(text) == Some(BTCUSDT) {
      DoOne(b, Put(s, ToUint64(px, 100), ToUint64(sz, 100_000)));
    }
  }

  /** Whatever instrument a NEW names, its level enters the BTCUSDT book if and only if the text is read as
      BTCUSDT: seven characters, the first a B. The documented conversion lets in BTCUSDT alone. */
  lemma EntersBookIff(b: Book, text: string, s: Side, px: WirePx, sz: WireSz, clearNeeded: bool)
    ensures Apply(b, OneNew(text, s, px, sz), clearNeeded).book
            == if |text| == 7 && text[0] == 'B' then Do(b, Put(s, ToUint64(px, 100), ToUint64(sz, 100_000))) else b
    ensures Apply(b, Documented(OneNew(text, s, px, sz)), clearNeeded).book
            == if text == "BTCUSDT" then Do(b, Put(s, ToUint64(px, 100), ToUint64(sz, 100_000))) else b
  {
    var seen := DocumentedText(Some(text)).value;
    OneNewApplied(b, text, s, px, sz, clearNeeded);
    OneNewApplied(b, seen, s, px, sz, clearNeeded);
    assert Documented(OneNew(text, s, px, sz)).entries == OneNew(seen, s, px, sz).entries;
    assert "BTCUSDT"[0] == 'B' && "ETHUSDT"[0] == 'E';
  }

  // ---------------------------------------------------------------------------
  // Prices one tick apart
  // ---------------------------------------------------------------------------

  /** A DELETE of one level, the only entry of its message. */
  function OneDelete(text: string, s: Side, px: WirePx): (m: Message) {
    Increment(Some(1), [IncrementEntry(Some(text), Some(if s == Bid then TYPE_BID else TYPE_OFFER),
                                       Action(ACTION_DELETE), Some(px), None, None, None, NoTime)])
  }

  lemma OneDeleteApplied(b: Book, s: Side, px: WirePx, clearNeeded: bool)
    ensures Apply(b, OneDelete("BTCUSDT", s, px), clearNeeded).book == Do(b, Drop(s, ToUint64(px, 100)))
  {
    var m := OneDelete("BTCUSDT", s, px);
    var e := m.entries[0];
    assert "BTCUSDT"[0] == 'B';
    IncrementIsFold(m, clearNeeded);
    assert Explicit(m.entries)[..1] == [e];
    var t := EntryTrace(e, clearNeeded);
    assert t.ops + [] == t.ops;
    assert MessageTrace(m, clearNeeded).ops == t.ops;
    DoOne(b, Drop(s, ToUint64(px, 100)));
  }

  /** Two prices of the exchange, j and k ticks, share a level of the book exactly when they merge: a NEW at
      either replaces the level of the other, and a DELETE at either removes it. If they do not merge, the level
      of the other stays as it is. */
  lemma SharedLevelIff(b: Book, s: Side, j: nat, k: nat, low: WirePx, high: WirePx, sz: WireSz, clearNeeded: bool)
    requires j < k < 4503599627370496 && low == OnGrid(j, 100) && high == OnGrid(k, 100)
    ensures Level(Apply(b, OneNew("BTCUSDT", s, high, sz), clearNeeded).book, s, ToUint64(low, 100))
            == if Merge(j, k, 100) then Some(ToUint64(sz, 100_000)) else Level(b, s, ToUint64(low, 100))
    ensures Level(Apply(b, OneNew("BTCUSDT", s, low, sz), clearNeeded).book, s, ToUint64(high, 100))
            == if Merge(j, k, 100) then Some(ToUint64(sz, 100_000)) else Level(b, s, ToUint64(high, 100))
    ensures Level(Apply(b, OneDelete("BTCUSDT", s, high), clearNeeded).book, s, ToUint64(low, 100))
            == if Merge(j, k, 100) then None else Level(b, s, ToUint64(low, 100))
    ensures Level(Apply(b, OneDelete("BTCUSDT", s, low), clearNeeded).book, s, ToUint64(high, 100))
            == if Merge(j, k, 100) then None else Level(b, s, ToUint64(high, 100))
  {
    MergeIff(j, k, 100);
    assert "BTCUSDT"[0] == 'B';
    OneNewApplied(b, "BTCUSDT", s, low, sz, clearNeeded);
    OneNewApplied(b, "BTCUSDT", s, high, sz, clearNeeded);
    OneDeleteApplied(b, s, low, clearNeeded);
    OneDeleteApplied(b, s, high, clearNeeded);
  }
}
