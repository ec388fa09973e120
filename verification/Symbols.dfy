// binance::Symbol and the tick sizes of binance::Config.
module Symbols {
  import opened Wrappers

  datatype Symbol = BTCUSDT | ETHUSDT

  /** Symbol::from_str; None stands for the exception. Only the length and the first letter are looked at. */
  function FromStr(s: string): (r: Option<Symbol>) {
    if |s| != 7 then None
    else if s[0] == 'B' then Some(BTCUSDT)
    else if s[0] == 'E' then Some(ETHUSDT)
    else None
  }

  function ToStr(s: Symbol): (r: string) {
    match s
    case BTCUSDT => "BTCUSDT"
    case ETHUSDT => "ETHUSDT"
  }

  /** Names round-trip, and they are the only texts that do. */
  lemma NamesRoundTrip(s: Symbol, text: string)
    ensures FromStr(ToStr(s)) == Some(s)
    ensures FromStr(text).Some? && ToStr(FromStr(text).value) == text <==> text in {"BTCUSDT", "ETHUSDT"}
  {
    assert "BTCUSDT"[0] == 'B' && "ETHUSDT"[0] == 'E';
  }

  /** The conversion as documented: the two names, and an exception for every other text. */
  function Intended(text: string): (r: Option<Symbol>) {
    if text == "BTCUSDT" then Some(BTCUSDT)
    else if text == "ETHUSDT" then Some(ETHUSDT)
    else None
  }

  predicate WellRead(text: string) {
    text in {"BTCUSDT", "ETHUSDT"} || |text| != 7 || text[0] !in {'B', 'E'}
  }

  /** The code converts as documented exactly on the two names and on the texts that cannot pass for one. */
  lemma AsIntendedIff(text: string)
    ensures FromStr(text) == Intended(text) <==> WellRead(text)
  {
    assert "BTCUSDT"[0] == 'B' && "ETHUSDT"[0] == 'E';
  }

  /** Another instrument is taken for BTCUSDT. */
  lemma OtherSymbolTakenForBitcoin()
    ensures FromStr("BNBUSDT") == Some(BTCUSDT) && Intended("BNBUSDT") == None
  {
    assert |"BNBUSDT"| == 7 && "BNBUSDT"[0] == 'B';
    assert "BNBUSDT"[1] != "BTCUSDT"[1];
  }

  /** Config::get_price_ticks_per_unit. */
  function PriceTicksPerUnit(s: Symbol): (t: nat)
    ensures 0 < t
  {
    match s
    case BTCUSDT => 100
    case ETHUSDT => 100
  }

  /** Config::get_size_ticks_per_unit. */
  function SizeTicksPerUnit(s: Symbol): (t: nat)
    ensures 0 < t
  {
    match s
    case BTCUSDT => 100_000
    case ETHUSDT => 10_000
  }
}
