/**
 * Conversion of the raw columns (process_options.py, lines 44-48).
 * The IV column is cleaned and converted strictly (line 44), Bid, Ask,
 * Last, Volume and Open Int strictly (line 45): a present cell that is
 * not a number aborts the run. Strike and Price~ are converted leniently
 * (lines 46-47) and Exp Date too (line 48): an unparseable cell becomes
 * null. Text-to-number and text-to-date parsing are parameters.
 */
module Normalizer {
  import opened Wrappers
  import opened OptionsData
  import opened IvText

  /** The parsers the conversions rely on; `None` means "not a number" / "not a date". */
  datatype Parsers = Parsers(number: string -> Option<real>, date: string -> Option<Date>)

  /** The columns whose conversion raises on a malformed cell. */
  datatype StrictColumn = IV | Bid | Ask | Last | Volume | OpenInt

  /** Position of a strict column in the order the script converts them (line 44, then line 45). */
  function Rank(c: StrictColumn): nat
  {
    match c
    case IV => 0
    case Bid => 1
    case Ask => 2
    case Last => 3
    case Volume => 4
    case OpenInt => 5
  }

  function StrictCell(r: RawRow, c: StrictColumn): Option<string>
  {
    match c
    case IV => r.iv
    case Bid => r.bid
    case Ask => r.ask
    case Last => r.last
    case Volume => r.volume
    case OpenInt => r.openInt
  }

  /** The text handed to the number parser: the IV text is cleaned first. */
  function NumberText(c: StrictColumn, t: string): string
  {
    if c == IV then CleanIV(t) else t
  }

  /** The cell of column `c` is present and is not a number. */
  predicate CellFails(r: RawRow, c: StrictColumn, number: string -> Option<real>)
  {
    StrictCell(r, c).Some? && number(NumberText(c, StrictCell(r, c).value)).None?
  }

  predicate ColumnFails(raw: seq<RawRow>, c: StrictColumn, number: string -> Option<real>)
  {
    exists i | 0 <= i < |raw| :: CellFails(raw[i], c, number)
  }

  /** The first column, in conversion order, holding a malformed cell. */
  function FirstFailingColumn(raw: seq<RawRow>, number: string -> Option<real>): (r: Option<StrictColumn>)
    ensures r.None? <==> forall c :: !ColumnFails(raw, c, number)
    ensures r.Some? ==> ColumnFails(raw, r.value, number)
    ensures r.Some? ==> forall c :: Rank(c) < Rank(r.value) ==> !ColumnFails(raw, c, number)
  {
    if ColumnFails(raw, IV, number) then Some(IV)
    else if ColumnFails(raw, Bid, number) then Some(Bid)
    else if ColumnFails(raw, Ask, number) then Some(Ask)
    else if ColumnFails(raw, Last, number) then Some(Last)
    else if ColumnFails(raw, Volume, number) then Some(Volume)
    else if ColumnFails(raw, OpenInt, number) then Some(OpenInt)
    else None
  }

  /** Converts one cell: an empty cell stays null, a present one is parsed. */
  function Convert<T>(cell: Option<string>, parse: string -> Option<T>): Option<T>
  {
    match cell
    case None => None
    case Some(t) => parse(t)
  }

  function NormalizeRow(r: RawRow, p: Parsers): Row
  {
    Row(
      r.symbol,
      Convert(r.price, p.number),
      r.optionType,
      Convert(r.strike, p.number),
      Convert(r.expDate, p.date),
      Convert(r.bid, p.number),
      Convert(r.ask, p.number),
      Convert(r.last, p.number),
      Convert(r.volume, p.number),
      Convert(r.openInt, p.number),
      Convert(r.iv, (t: string) => p.number(CleanIV(t))),
      r.delta)
  }

  /** The value a strict column holds after a conversion that did not raise. */
  function StrictValue(r: Row, c: StrictColumn): Option<real>
  {
    match c
    case IV => r.iv
    case Bid => r.bid
    case Ask => r.ask
    case Last => r.last
    case Volume => r.volume
    case OpenInt => r.openInt
  }

  /**
   * Converts the whole table, or reports the first column (in conversion
   * order) that holds a malformed cell. No strict cell is silently nulled:
   * after a successful conversion a strict value is present exactly when
   * its cell was, while the lenient fields are null exactly when their
   * cell was empty or did not parse.
   */
  function Normalize(raw: seq<RawRow>, p: Parsers): (res: Result<seq<Row>, StrictColumn>)
    ensures res.Success? <==> forall i, c | 0 <= i < |raw| :: !CellFails(raw[i], c, p.number)
    ensures res.Failure? ==> ColumnFails(raw, res.error, p.number)
    ensures res.Failure? ==> forall c :: Rank(c) < Rank(res.error) ==> !ColumnFails(raw, c, p.number)
    ensures res.Success? ==> |res.value| == |raw|
    ensures res.Success? ==> forall i, c | 0 <= i < |raw| ::
      StrictValue(res.value[i], c).Some? <==> StrictCell(raw[i], c).Some?
    ensures res.Success? ==> forall i, c | 0 <= i < |raw| && StrictCell(raw[i], c).Some? ::
      StrictValue(res.value[i], c) == p.number(NumberText(c, StrictCell(raw[i], c).value))
    ensures res.Success? ==> forall i | 0 <= i < |raw| ::
      && res.value[i].strike == Convert(raw[i].strike, p.number)
      && res.value[i].price == Convert(raw[i].price, p.number)
      && res.value[i].expDate == Convert(raw[i].expDate, p.date)
      && (res.value[i].strike.None? <==> raw[i].strike.None? || p.number(raw[i].strike.value).None?)
      && (res.value[i].price.None? <==> raw[i].price.None? || p.number(raw[i].price.value).None?)
      && (res.value[i].expDate.None? <==> raw[i].expDate.None? || p.date(raw[i].expDate.value).None?)
      && res.value[i].symbol == raw[i].symbol
      && res.value[i].optionType == raw[i].optionType
      && res.value[i].delta == raw[i].delta
  {
    match FirstFailingColumn(raw, p.number)
    case Some(c) => Failure(c)
    case None => Success(seq(|raw|, i requires 0 <= i < |raw| => NormalizeRow(raw[i], p)))
  }
}
