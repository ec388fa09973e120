# trader.cpp: a verified model of the order book and the pipeline around it

trader.cpp receives BTCUSDT market data over FIX, keeps an order book and a list of recent trades, and
shows both, with the tail of its own log, in a terminal. This project models that core in Dafny and proves
what it keeps true, for every message stream and every interleaving of its threads, from the parsed messages to
the texts in the cells of the order book table.

`dafny verify dfyconfig.toml` checks the whole project. The files, in the order in which they build up:

| file | what it covers |
|---|---|
| `Doubles.dfy`, `Ticks.dfy` | binary64 rounding, and the conversion of wire prices and sizes to tick counts |
| `Symbols.dfy`, `Messages.dfy` | symbol texts, and parsed FIX messages as the QuickFIX getters present them |
| `Book.dfy` | what each message does to the two price maps, step by step, including where an exception strikes |
| `BookLaws.dfy`, `ClosedForm.dfy`, `Snapshots.dfy`, `DepthOne.dfy` | laws over whole messages and whole streams |
| `Ladders.dfy`, `LevelMaps.dfy` | a sorted array standing in for `absl::btree_map`, with either comparator |
| `Rows.dfy`, `OrderBooks.dfy` | flattening into rows, and the mutable `OrderBook` class |
| `Pipeline.dfy`, `Conservation.dfy`, `Refinement.dfy`, `Progress.dfy` | the threads, queues, mutex and stop request as a state machine: what it keeps, and what it can always do |
| `Workers.dfy`, `Scripts.dfy` | the message handlers, the polling loop with its backoff, and the loop inside the state machine |
| `Histories.dfy`, `Trades.dfy`, `LogTail.dfy` | the trade ring, the log ring, and the incremental log reader |
| `NumberText.dfy`, `ToChars.dfy` | the text edits of `pretty` and `trim`, and `std::to_chars` |
| `Display.dfy`, `SizeCells.dfy`, `Screen.dfy` | price cells, size cells, and the table of the order book, for every run |

How the model reads the program:

- A C++ exception is a returned flag. A getter throws on a field that is absent or does not convert; such a
  field is `None`. The state at the throw is exact: a CHANGE without a size, in clear mode, has emptied its
  side by then.
- Wire prices and sizes are reals within the range in which the final integer cast of `toUint64` is defined
  (`Ticks.InRange`). Binary64 multiplication is exact multiplication followed by round-to-nearest-even.
  `Doubles.MIN_EXPONENT` is left arbitrary from 116 up; binary64 has 1074, and nothing depends on more.
- The threads are a step relation. One step applies one message entry or copies one row; every sequence of
  steps is a run. The external queue is first-in first-out per producing session only. The clear mode is a
  parameter; the box sets it when its depth limit is 1 (src/ui/order_book_box.cpp:43).
- `std::to_chars` with precision 15 is exact rounding of the double, half to even, in either format. Its general
  format goes scientific from 10^15 on, that is from about 10^17 ticks; prices below 10^15 ticks are proved to be
  written as the exact decimal (`Display.TextIsDecimal`).
- MDUpdateAction may be absent, unreadable or a character: an absent one throws on every BTCUSDT entry, an
  unreadable one only on a bid or an offer.

Where the code does less than its documentation says, the model follows the code:

- `src/binance/config.h:40-41` offers the tick conversion for correctness, but it truncates: the nearest
  double to 0.29 becomes 28 ticks and merges with 0.28 (`Ticks.TwentyNineCents`). `Ticks.ExactTicks` says
  for every price exactly when the conversion is right, `Ticks.OneTickBound` that it is off by at most one, and
  `Ticks.MergeIff` exactly when two prices merge; `BookLaws.SharedLevelIff` says what that does to the book.
- `src/binance/symbol.h:19-24` promises to convert a symbol, but any seven-character text starting with B is
  taken for BTCUSDT. `Symbols.AsIntendedIff` says for every text whether it is converted as documented, and
  `BookLaws.TakenForBitcoin` and `BookLaws.EntersBookIff` that BNBUSDT prices, for one, enter the BTCUSDT book.
- A log line that is split between two notifications is reported as two lines (`LogTail.SplitLine`);
  `LogTail.IncrementalIffNoCuts` says exactly when the reported lines are the lines of the file, and
  `LogTail.LastLinesIff` when the last of them are.
- The 13-column price cell cuts the last digit of prices with two decimals from 10^8 on
  (`Display.LastDigitCutOff`); `Display.CellReadsBackIff` says exactly which prices can be read back. A missing
  price is printed as 1.84467440737 and its size as 1844674407 (`Screen.MissingCells`).
- The 10-column size cell shows the binary noise of the division: 17.4 appears as 17.3999999
  (`SizeCells.SeventeenPointFour`); `SizeCells.SizeReadsBackIff` says exactly which sizes can be read back.

## Model

| member | source | states |
|---|---|---|
| Doubles.NearestDouble | src/utils/double.h:17-20 | The rounded product is a double, and no double is closer |
| Doubles.NearestIff | src/utils/double.h:17-20 | It is the one solution of the definition of IEEE rounding: a double, no double closer, an even one if another is as close |
| Doubles.Monotone | src/utils/double.h:17-20 | Rounding preserves order |
| Doubles.RelativeError | src/utils/double.h:17-20 | Rounding changes a number that is not tiny by at most one part in 2^53 |
| Doubles.Reaches | src/utils/double.h:17-20 | Rounding reaches an integer up to 2^52 from below exactly when the argument is at most half a double spacing away |
| Ticks.ToUint64 | src/utils/double.h:17-20 | Multiply and truncate; the result is never within 2047 of 2^64, so never the row sentinel |
| Ticks.RangeReaches | src/utils/double.h:17-20 | The values on which the model is defined reach to the largest double below 2^64, where the cast stops being defined |
| Ticks.TicksMonotone | src/utils/double.h:17-20 | A higher wire value never converts to fewer ticks |
| Ticks.OneTickBound | src/binance/config.h:40-58 | A price of k < 2^52 ticks, sent as the nearest double, converts to k or k - 1, for any tick factor up to 2^53 |
| Ticks.ExactTicks | src/binance/config.h:40-58 | It converts to k exactly when the product with the tick factor is at most half a double spacing below k |
| Ticks.TwoTicksApart | src/binance/config.h:40-58 | Prices two or more ticks apart never merge and keep their order |
| Ticks.MergeIff | src/binance/config.h:40-58 | Two prices j < k convert to the same number of ticks exactly when k = j + 1, the product for j is at most half a double spacing below j, and the product for k is further below k |
| Ticks.TwentyNineCents | src/binance/config.h:40-58 | Adjacent prices can merge: 0.28 and 0.29 both convert to 28 |
| Symbols.NamesRoundTrip | src/binance/symbol.h:19-65 | The two names survive the round trip, and no other text does |
| Symbols.AsIntendedIff | src/binance/symbol.h:19-42 | For every text: the conversion is the documented one exactly if the text is one of the names, is not seven characters long, or starts with neither B nor E |
| Symbols.OtherSymbolTakenForBitcoin | src/binance/symbol.h:24-35 | BNBUSDT is accepted as BTCUSDT, where the documented conversion refuses it |
| Ladders.UpsertRefines | src/core/order_book.h:41-44 | Inserting or overwriting in the sorted sequence is map update, for both comparators |
| Ladders.EraseRefines | src/core/order_book.h:41-44 | Erasing from the sorted sequence is map removal, also of an absent key |
| LevelMaps.UpdatesRefine | src/core/order_book.h:41-44 | Any operations on a book keep the sorted sequence of each side a listing of the plain map |
| Ladders.SlotUnique | src/core/order_book.h:41-44 | A price has one slot, so a linear search and a binary search agree |
| Ladders.LadderUnique | src/core/order_book.h:41-44 | A map has one sorted listing per comparator |
| LevelMaps.LevelMap.LowerBound | src/core/order_book.h:41-44 | Binary search finds the slot of a price under either comparator |
| LevelMaps.LevelMap.Assign | src/core/order_book.cpp:180-180 | map[px] = sz on the sorted array: search, shift up, grow; the contents become the updated map |
| LevelMaps.LevelMap.Erase | src/core/order_book.cpp:168-168 | map.erase(px) on the sorted array: the contents lose the key if it was there |
| LevelMaps.LevelMap.PerformAll | src/core/order_book.h:41-44 | After any operations on the book, the array holds the contents of its side of the plain book, in order |
| OrderBooks.OrderBook.HandlePriceLevelUpdate | src/core/order_book.cpp:156-185 | DELETE, CHANGE and NEW on one side, with the fallthrough, clear mode and both throwing fields, change the maps and report the throw as specified |
| OrderBooks.OrderBook.ApplySnapshotEntry | src/core/order_book.cpp:86-104 | One snapshot entry puts its level on its side, is skipped, or throws with no effect |
| OrderBooks.OrderBook.ApplySnapshot | src/core/order_book.cpp:63-106 | The loop as a whole does what the message specification says, on every throwing path too |
| OrderBooks.OrderBook.ApplyIncrementEntry | src/core/order_book.cpp:123-153 | One entry keeps, replaces or fails to read the carried symbol and is applied or skipped as specified; the missing-symbol branch is dead |
| OrderBooks.OrderBook.ApplyIncrement | src/core/order_book.cpp:108-154 | The loop with its carried symbol does what the message specification says, on every throwing path too |
| OrderBooks.OrderBook.ApplyMessage | src/ui/order_book_box.cpp:165-174 | The message kind selects the method |
| OrderBooks.OrderBook.ToVector | src/core/order_book.cpp:36-61 | The two-iterator walk returns the rows of the book: bids falling, asks rising, sentinels where a side is exhausted |
| OrderBooks.Walk | src/core/order_book.cpp:42-58 | The loop of to_vector zips two arrays of any sizes |
| BookLaws.CarriedSymbolIsLatest | src/core/order_book.cpp:123-127 | The symbol in force at an entry is that of the closest entry up to it that has one |
| BookLaws.IncrementIsFold | src/core/order_book.cpp:117-153 | An increment is a fold over independent entries, once each has its symbol written out |
| BookLaws.SymbolCarry | src/core/order_book.cpp:123-127 | Writing the carried symbol on every entry changes neither the book nor where an exception strikes |
| BookLaws.MissingSymbolUnreachable | src/core/order_book.cpp:128-131 | However far the loop gets, it never holds an entry without a symbol for it |
| BookLaws.EtherChangesNothing | src/core/order_book.cpp:133-137 | An increment without its ETHUSDT entries leaves the same book and throws alike |
| BookLaws.ThrowKeepsPrefix | src/core/order_book.cpp:117-180 | If entry i is the first to throw, the book is the one after the message cut off before entry i, except that a CHANGE without a size in clear mode has emptied its side |
| BookLaws.OverrunKeepsAll | src/core/order_book.cpp:113-121 | An increment that announces more entries than it has throws after doing all of them |
| ClosedForm.SnapshotThrowKeepsPrefix | src/core/order_book.cpp:79-104 | An accepted snapshot that throws at group i, or runs out of groups there, leaves exactly the levels that the groups before it list |
| ClosedForm.MissingCount | src/core/order_book.cpp:75-79 | Without NoMDEntries an increment throws before touching the book, an accepted snapshot after emptying it |
| ClosedForm.MessageThrowsIff | src/core/order_book.cpp:63-184 | A message that concerns the book throws exactly when NoMDEntries is missing or too large, or a field that a reached entry needs is absent or unreadable |
| BookLaws.TakenForBitcoin | src/core/order_book.cpp:63-154 | A symbol text of seven characters that starts with B, BNBUSDT for one, can be replaced by BTCUSDT throughout a message: same book, same exception |
| BookLaws.AppliedAsDocumented | src/core/order_book.cpp:65-154 | A message whose symbol texts are all well read is applied as the documented conversion has it |
| BookLaws.EntersBookIff | src/core/order_book.cpp:123-153 | The level of a NEW enters the BTCUSDT book exactly if its symbol has seven characters and starts with B, whereas the documented conversion lets in BTCUSDT alone |
| BookLaws.SharedLevelIff | src/core/order_book.cpp:162-181 | A NEW at one of two exchange prices replaces the level of the other, and a DELETE removes it, exactly when the two merge |
| ClosedForm.LevelDecidedByLastHappening | src/core/order_book.cpp:63-184 | After any stream, a level is what the last accepted snapshot, listed level, NEW, CHANGE or DELETE that touches its price (or a CHANGE on its side in clear mode) made of it; a message that throws counts up to its throwing entry |
| Snapshots.RejectedChangesNothing | src/core/order_book.cpp:65-74 | A snapshot of another symbol leaves the book as it was, and throws unless it is ETHUSDT's |
| Snapshots.SynchronisesIffAccepted | src/core/order_book.cpp:69-77 | A snapshot makes any two books equal exactly when it is accepted |
| Snapshots.HistoriesConverge | src/core/order_book.cpp:63-106 | Whatever the two histories, an accepted snapshot and the same suffix give the same book |
| DepthOne.ChangeLeavesOneLevel | src/core/order_book.cpp:170-181 | In clear mode a complete CHANGE leaves exactly its own level on its side and does not touch the other |
| DepthOne.EverythingEarlierIsIrrelevant | src/core/order_book.cpp:166-181 | In any stream, nothing before a complete CHANGE matters to its side, and the side holds at most 1 plus the NEWs and listed levels on it since |
| DepthOne.EarlierStreamsForgotten | src/core/order_book.cpp:166-181 | Whatever two streams came before one that holds a complete CHANGE, its side ends up the same |
| DepthOne.ChangeIsNew | src/core/order_book.cpp:170-181 | With clear mode off, turning any CHANGE entries of a stream into NEW never alters the book |
| Rows.RowShape | src/core/order_book.cpp:36-61 | As many rows as the larger side has levels; strict order down each column; sentinels exactly after the last level |
| Rows.MissingLevels | src/core/bid_ask.h:16-24 | In a row beyond the last level of a side, its price and its size are both 2^64 - 1 |
| Rows.BestOnTop | src/core/order_book.cpp:42-56 | Row 0 holds the best bid and the best ask with their sizes |
| Rows.RebuildRows | src/core/bid_ask.h:16-24 | The rows determine both maps up to a level at the sentinel price |
| Rows.LosslessIff | src/core/bid_ask.h:16-24 | to_vector is lossless exactly when no level is at the sentinel price |
| Rows.ApplyBelow | src/core/order_book.cpp:92-104 | No message puts a level at the sentinel price, not even one that throws |
| Rows.StreamRowsLossless | src/core/order_book.cpp:36-61 | Every book that a stream builds is read back exactly from its rows, whatever book without a sentinel price it starts from |
| Pipeline.NextSafe | src/ui/order_book_box.cpp:156-189 | Every step keeps the invariant: mutual exclusion, the book on its way from one whole message to the next, no completed message threw, half-copied rows a prefix of the book's |
| Pipeline.Run | src/ui/order_book_box.cpp:135-190 | The invariant holds in the state after any sequence of events |
| Progress.EverythingArrives | src/binance/fix_app.cpp:215-230 | Every message that arrives is received, in order, and the stop flag is up exactly once a stop was requested |
| Progress.StopIsSeen | src/ui/order_book_box.cpp:156-162 | Between two messages a stop request is seen at the next test, in the outer or the inner loop, and the worker returns without taking anything |
| Progress.AtMostOneMore | src/ui/order_book_box.cpp:156-162 | After a stop request the worker takes at most one more message in any continuation, and none unless it was about to look into the queue |
| Progress.StopBeforeStart | src/ui/order_book_box.cpp:156-157 | A stop requested before the worker starts keeps it from taking anything |
| Progress.WorkerCanEnd | src/ui/order_book_box.cpp:156-189 | From every state with a stop request the worker can come to its end without taking another message |
| Progress.QueuedMessageCanSettle | src/ui/order_book_box.cpp:156-175 | Without a stop request, each message that is the oldest of its session in the queue can be the next to be taken and settled |
| Progress.RenderCanComplete | src/core/order_book.cpp:36-61 | Unless the worker holds the mutex, a render can be completed without its help, shows the book as it is, and gives the mutex back |
| Progress.RenderAfterMessage | src/core/order_book.cpp:36-61 | While the worker holds the mutex, a render of the whole book can follow once its message is settled |
| Progress.TradeCanBeTaken | src/ui/trade_box.cpp:152-177 | The oldest message of the trade queue can be taken at any time |
| Conservation.RunConserves | src/binance/fix_app.cpp:215-230 | Per session, what was routed to the order queue is what the worker took followed by what is queued; the trade queue likewise |
| Conservation.EverythingArrivesOnce | src/binance/fix_app.cpp:215-230 | All messages of PX and all snapshots of any other session are taken for the book or queued for it, in order; all increments of TX, and nothing else, go to the trades in order |
| Conservation.PxStreamConserved | src/binance/fix_app.cpp:215-222 | If PX is the only producer, its messages of both kinds are applied, in flight and queued in order of arrival |
| Conservation.TradeMessagesStayApart | src/binance/fix_app.cpp:219-230 | An increment of TX never reaches the book, and only those reach the trades |
| Conservation.StopLosesNothing | src/ui/order_book_box.cpp:156-181 | When the worker has returned on a stop request, what arrived for the book is, per session, what it applied followed by what is still queued: nothing dequeued was dropped |
| Refinement.Simulates | src/ui/order_book_box.cpp:156-180 | Each step is one indivisible action of the atomic system or invisible to it |
| Refinement.RunRefines | src/ui/order_book_box.cpp:135-190 | Every run is a run of a system that applies a whole message, and copies a whole screen, in one step |
| Refinement.RendersShowWholeMessages | src/core/order_book.cpp:36-61 | In every interleaving a render shows the book after a whole number of messages, none of which threw; after an exception, also what the throwing message had done |
| Refinement.RendersNeverGoBack | src/core/order_book.cpp:36-61 | Later renders never show fewer messages |
| Refinement.RowsDetermineBook | src/core/order_book.cpp:36-61 | In every run from a book without a sentinel price, a render's rows read back exactly as the book they were taken from |
| Refinement.TakenMessageCanFinish | src/ui/order_book_box.cpp:156-189 | Whatever the stop flag says, a dequeued message can always be finished: no deadlock on the mutex |
| Workers.FixApp.OnSnapshot | src/binance/fix_app.cpp:215-218 | A snapshot of any session is appended to the order queue |
| Workers.FixApp.OnIncrement | src/binance/fix_app.cpp:219-230 | An increment goes to the order queue from PX, to the trade queue from TX, and nowhere otherwise |
| Workers.AdaptiveBackoff | src/ui/order_book_box.cpp:141-154 | The 8- and 16-bit counters never wrap, and the waits follow the schedule |
| Workers.Schedule | src/ui/order_book_box.cpp:141-154 | The first ten waits of a streak yield; then come sleeps of 10, 20, 40, 80, 160, 320 and 640 microseconds, and of 1000 from then on |
| Workers.AwaitMessage | src/ui/order_book_box.cpp:158-163 | The inner loop waits by the schedule, from whatever state the counters are in, until a message arrives or a stop request is seen |
| Workers.Turn | src/ui/order_book_box.cpp:156-180 | A turn of the outer loop handles one message and leaves fresh counters, or ends the loop as planned |
| Workers.PollQueue | src/ui/order_book_box.cpp:135-190 | The loop's waits, the messages it handles and its end are as planned, and the book is the one after those messages |
| Workers.WaitsFollowSchedule | src/ui/order_book_box.cpp:144-179 | In every run the n-th empty poll in a row is followed by the n-th wait of the schedule, and a processed message restarts the count |
| Workers.HandlesAllDequeued | src/ui/order_book_box.cpp:156-180 | Every message dequeued is handled, in order, and the loop ends only at a stop request or an exception |
| Workers.OnlyTheLastThrows | src/ui/order_book_box.cpp:182-189 | The loop ends by an exception exactly when its last message throws, and no earlier one does |
| Scripts.WorkerFollowsPlan | src/ui/order_book_box.cpp:156-189 | In every run of the state machine the worker has taken exactly the messages that the loop handles on what it observed, and stands where the loop stands |
| Scripts.WorkerBookAsPlanned | src/ui/order_book_box.cpp:156-189 | Unless a message is in its hands, the book of the state machine is the one that the loop leaves after those observations |
| Histories.Ring.PushBack | src/ui/trade_box.h:52-53 | The wraparound array keeps the last elements up to its capacity, in order |
| Histories.LogBox.OnLogLines | src/ui/log_box/log_box.cpp:129-138 | Pop-front and push-back keep the last hundred lines |
| Histories.LastOfLast | src/ui/trade_box.h:52-53 | Keeping the last n at every step is keeping the last n at the end |
| Trades.OnTrade | src/ui/trade_box.cpp:179-268 | The ring becomes the last hundred of what it held and the trades of the message, up to a throw |
| Trades.OnTrades | src/ui/trade_box.cpp:152-177 | Across messages the ring holds the last hundred accepted trades in order of arrival; the first throw ends the run |
| Trades.OnTradeThrowsIff | src/ui/trade_box.cpp:179-263 | on_trade throws exactly when NoMDEntries is missing or too large, a symbol is unreadable, a BTCUSDT entry has no type, or a trade with an aggressor lacks a field it needs; other entries are skipped |
| Trades.TradesRecorded | src/ui/trade_box.cpp:210-263 | What is pushed records the trade entries before the first entry that throws, each once and in order |
| Trades.TradesAreFolded | src/ui/trade_box.cpp:210-225 | The trades of a message are those of its entries with their symbols written out |
| Trades.TradePushedIff | src/ui/trade_box.cpp:227-262 | A trade entry is pushed, with price and size in ticks, its side, and a time capped to a valid one, exactly when every field it needs is readable |
| Trades.TradeIdIsLeadingDigits | src/ui/trade_box.cpp:237-241 | Of any trade identifier the leading digits count, if they fit 64 bits; otherwise it is 0 |
| Trades.TradeIdRoundTrip | src/ui/trade_box.cpp:238-241 | Every 64-bit trade identifier is read back; a larger one becomes 0 |
| LogTail.Watcher.GetLine | src/ui/log_box/log_file_watcher.h:62-62 | std::getline: one line, the stream's position and its two state bits, at and before the end of the file |
| LogTail.Watcher.HandleFileAction | src/ui/log_box/log_file_watcher.h:49-75 | A change of the watched file reports the lines of everything not yet read and leaves the stream readable |
| LogTail.Watch | src/ui/log_box/log_file_watcher.h:57-69 | On a growing file the watcher reports, per notification, the lines of the new part |
| LogTail.LinesAre | src/ui/log_box/log_file_watcher.h:60-64 | The lines of a text are the text cut at every newline and nowhere else; a last line without a newline counts |
| LogTail.CutLinesAreExtra | src/ui/log_box/log_file_watcher.h:60-68 | Every line cut between notifications is reported as one line too many |
| LogTail.IncrementalIffNoCuts | src/ui/log_box/log_file_watcher.h:57-69 | Incremental reading reports the lines of the file exactly when no line was cut |
| LogTail.SplitLine | src/ui/log_box/log_file_watcher.h:60-68 | The line ab written as a and then b is reported as two lines |
| LogTail.LastLinesIff | src/ui/log_box/log_file_watcher.h:60-68 | The last n reported lines are those of the file exactly when no line was cut or n whole lines followed the one cut last |
| LogTail.Tail | src/ui/log_box/log_box.cpp:129-136 | The log ring holds the last hundred reported lines; they are those of the file exactly when no line was cut or a hundred whole lines followed |
| LogTail.BytesConserved | src/ui/log_box/log_file_watcher.h:60-68 | However the file is cut, the reported lines are the bytes read without the newlines, each once and in order |
| NumberText.TrimInPlace | src/utils/double.h:40-50 | The in-place removal of trailing zeros, on any text |
| NumberText.TrimmedIs | src/utils/double.h:40-50 | On any text: without a point nothing changes; otherwise zeros behind it, and a point left dangling, are cut off the end as far as they go |
| NumberText.TrimIdempotent | src/utils/double.h:81-92 | Trimming twice is trimming once, on any text |
| NumberText.TrimIsDecimal | src/utils/double.h:81-92 | A plain decimal trims to a plain decimal without a dangling point or a final zero |
| NumberText.TrimKeepsValue | src/utils/double.h:81-92 | Trimming keeps the value |
| NumberText.TrimCanonical | src/utils/double.h:81-92 | Two decimals trim to the same text exactly when sign, integer digits and value agree |
| NumberText.InsertCommas | src/utils/double.h:52-65 | The right-to-left insertion ends, although the text grows, with commas grouping the integer part |
| NumberText.PrettyText | src/utils/double.h:38-67 | Both edits of pretty, one after the other |
| NumberText.CommasComeOff | src/utils/double.h:52-65 | Deleting the commas restores any text that had none |
| NumberText.GroupShape | src/utils/double.h:62-65 | Commas stand exactly at every fourth place from the right: three digits per group, one to three in the first |
| NumberText.CommaPlaces | src/utils/double.h:52-65 | In a plain decimal no comma follows the sign or lands in the fraction |
| NumberText.CommasAnywhere | src/utils/double.h:52-65 | In any text that had no commas they stand only inside the integer part, at every fourth place from its right end |
| ToChars.Round15Nearest | src/utils/double.h:30-37 | The fifteen significant digits are the nearest, even in a tie |
| ToChars.GeneralIs | src/utils/double.h:30-37 | The general format in full: those digits without trailing zeros, plainly up to fifteen places before the point, beyond that in scientific form |
| ToChars.FixedIs | src/utils/double.h:69-79 | The fixed format in full: the nearest number of fifteen decimals, all of them written |
| Display.PadFills | src/ui/helpers.h:10-19 | A cell is the text followed by spaces only, or as much of the text as there is room for |
| Display.UnpadPad | src/ui/helpers.h:10-19 | Padding a text that fits and has no spaces can be undone |
| ToChars.GeneralIsDecimal | src/utils/double.h:32-33 | Fifteen significant digits write any double within one part in 2^53 of k/100 as the exact decimal, for k up to fifteen digits |
| Display.TextIsDecimal | src/ui/order_book_box.cpp:113-116 | Below 10^15 ticks the price that is printed, k converted to double and divided by 100, is written as the exact decimal |
| Display.FitsIff | src/ui/order_book_box.h:42-43 | The decimal of k/100 with its commas fits 13 columns exactly below 10^10 ticks, or 10^11 if divisible by 10, or 10^12 if divisible by 100 |
| Display.CellReadsBackIff | src/ui/order_book_box.cpp:113-125 | A price reads back from its cell exactly below 10^10 ticks, or 10^11 if divisible by 10, or 10^12 if divisible by 100; any other reads as a smaller price or, from 10^15 ticks on, possibly as none |
| Display.PriceCellIs | src/ui/order_book_box.cpp:113-125 | Below 10^15 ticks a price cell holds the decimal of the price with its commas, then spaces; all of it exactly if the price is readable |
| Display.PricesShowDistinctly | src/ui/order_book_box.cpp:113-125 | Below 10^10 ticks every price reads back from its cell and no two look alike |
| Display.LastDigitCutOff | src/ui/order_book_box.h:42-43 | From 10^10 ticks on, prices that differ in a nonzero last digit only need 14 columns and look alike |
| Display.SentinelCell | src/core/bid_ask.h:16-24 | A missing price is printed as 1.84467440737, which no price reads as |
| SizeCells.SizeReadsBackIff | src/ui/order_book_box.cpp:111-127 | A size reads back from its cell exactly below 10^15 ticks if only zeros are cut off and the double is not below the size by more than half of the fifteenth decimal |
| SizeCells.SizeCellIs | src/ui/order_book_box.cpp:111-127 | A size cell holds the decimal of the double with up to fifteen decimals, without trailing zeros, then spaces, or as much of it as fits |
| SizeCells.MissingSizeCell | src/core/bid_ask.h:16-24 | A missing size is printed as 1844674407, a number like any other |
| SizeCells.SeventeenPointFour | src/utils/double.h:69-92 | A size of 17.4 is printed as 17.3999999 |
| Screen.ToTable | src/ui/order_book_box.cpp:102-132 | to_table returns, row by row, the padded cells of the rows of the book |
| Screen.TableReadsBackIff | src/ui/order_book_box.cpp:102-132 | The price columns of the table give back both sides, best first, exactly when every price is readable; the size columns likewise |
| Screen.MissingCells | src/ui/order_book_box.cpp:102-132 | Where a side has no further level the table shows 1.84467440737 and 1844674407 |
| Screen.ScreenReadsBackIff | src/ui/order_book_box.cpp:102-132 | In every run and interleaving the table made from a render reads back as the book after a whole number of messages exactly when its prices, and its sizes, are readable |
| Screen.ScreenShowsPrices | src/ui/order_book_box.cpp:102-132 | In every run, if the prices of the book are below 10^8 the columns show exactly those prices, the sentinel cells none |

## Left out

- `FTXUI` components, sliders, colours and layout; of the order book table the rows and the cell texts are modelled.
- The cells of the trade table: only its ring of trades is modelled.
- `QuickFIX` parsing, session handling, logon and subscription requests: the model starts from parsed fields.
- `Auth`, PEM files and signatures: foreign cryptography.
- Threads' names, CPU affinity and priorities, crash handlers, logging setup and environment lookup.
- Internals of `absl::btree_map`, `moodycamel::ConcurrentQueue`, `boost::circular_buffer` and `std::to_chars`: stand-ins or stated contracts.
- `std::to_chars` in general format below 0.0001, which no price of whole ticks reaches.
- `OrderBook`'s move constructor, used only while the box is built, and the two-map constructor: the class starts empty, the state machine from any book.
- `std::mutex` in the classes: locking is in `Pipeline`, whose steps use the same per-message functions that the class methods are proved against.
- `poll_queue` of the trade box: the same loop as the order book's, which `Workers.PollQueue` models; `Trades.OnTrades` covers what it does with the messages.
- `stop_requested()` and `try_dequeue()` in `Workers.PollQueue` are given as a finite sequence of observations.
- The text of a trade's time (`snprintf`): the four capped numbers are kept instead.
- `pretty` on scientific notation: commas can land inside the exponent there, as tests/utils/double_test.cpp:89-92 records. The editing methods are proved on all texts; the laws about digits are about plain decimals.
- `toUint64` on negative values or results from 2^64 on: undefined in C++, hence outside `Ticks.InRange`. The message types carry this range on every price and size field, also where an entry is skipped before conversion.
- Enum-to-text helpers for sides, and the shell scripts.
