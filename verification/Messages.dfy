// Parsed FIX 4.4 market data messages, as the QuickFIX getters present them.
module Messages {
  import opened Ticks
  import opened Wrappers

  // Field values of FIX 4.4: MDEntryType (269), MDUpdateAction (279).
  const TYPE_BID := '0'
  const TYPE_OFFER := '1'
  const TYPE_TRADE := '2'
  const ACTION_NEW := '0'
  const ACTION_CHANGE := '1'
  const ACTION_DELETE := '2'

  /** TransactTime (60): absent, present but unreadable, or a time of day. */
  datatype TimeField = NoTime | BadTime | TimeOfDay(hour: nat, minute: nat, second: nat, micros: nat)

  /** MDUpdateAction (279): absent, present but not one character, or one character. The code fetches the
      field of every entry but converts it only for a bid or an offer. */
  datatype ActionField = NoAction | BadAction | Action(value: char)

  // None is a field on which the getter throws: it is absent, or its text does not convert.

  datatype SnapshotEntry = SnapshotEntry(entryType: Option<char>, px: Option<WirePx>, sz: Option<WireSz>)

  datatype IncrementEntry = IncrementEntry(
    symbol: Option<string>,
    entryType: Option<char>,
    action: ActionField,
    px: Option<WirePx>,
    sz: Option<WireSz>,
    aggressor: Option<string>,
    tradeId: Option<string>,
    time: TimeField)

  /** count is NoMDEntries (268). getGroup throws when asked for an entry beyond the ones present. */
  datatype Message =
    | Snapshot(symbol: Option<string>, count: Option<int>, groups: seq<SnapshotEntry>)
    | Increment(count: Option<int>, entries: seq<IncrementEntry>)
}
