/**
 * The rows of the options table, before and after conversion
 * (process_options.py, lines 41-48), and the contract key they are
 * grouped by (line 56).
 */
module OptionsData {
  import opened Wrappers

  /** A calendar date, as its day number; only equality and order matter to the transform. */
  datatype Date = Date(day: int)

  /**
   * One CSV row as the reader hands it over. `None` is an empty cell,
   * which the frame holds as NaN. Delta is converted nowhere in the
   * script, so it is kept as the number the reader produced.
   */
  datatype RawRow = RawRow(
    symbol: Option<string>,
    price: Option<string>,
    optionType: Option<string>,
    strike: Option<string>,
    expDate: Option<string>,
    bid: Option<string>,
    ask: Option<string>,
    last: Option<string>,
    volume: Option<string>,
    openInt: Option<string>,
    iv: Option<string>,
    delta: Option<real>)

  /** One row after conversion; `None` is NaN (numbers) or NaT (the date). */
  datatype Row = Row(
    symbol: Option<string>,
    price: Option<real>,
    optionType: Option<string>,
    strike: Option<real>,
    expDate: Option<Date>,
    bid: Option<real>,
    ask: Option<real>,
    last: Option<real>,
    volume: Option<real>,
    openInt: Option<real>,
    iv: Option<real>,
    delta: Option<real>)

  /** The group key (Symbol, Price~, Type, Strike, Exp Date) with every field present. */
  datatype Key = Key(symbol: string, price: real, optionType: string, strike: real, expDate: Date)

  /** The row's key, or `None` when a key field is null: such a row is dropped by the grouping. */
  function KeyOf(r: Row): (k: Option<Key>)
    ensures k.Some? ==>
      && r.symbol == Some(k.value.symbol)
      && r.price == Some(k.value.price)
      && r.optionType == Some(k.value.optionType)
      && r.strike == Some(k.value.strike)
      && r.expDate == Some(k.value.expDate)
    ensures k.None? <==>
      r.symbol.None? || r.price.None? || r.optionType.None? || r.strike.None? || r.expDate.None?
  {
    if r.symbol.Some? && r.price.Some? && r.optionType.Some? && r.strike.Some? && r.expDate.Some?
    then Some(Key(r.symbol.value, r.price.value, r.optionType.value, r.strike.value, r.expDate.value))
    else None
  }

  /** Some row of `rows` has every key field present and its key is `k`. */
  predicate HasGroup(rows: seq<Row>, k: Key)
  {
    exists i | 0 <= i < |rows| :: KeyOf(rows[i]) == Some(k)
  }
}
