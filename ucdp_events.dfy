/**
 * Conflict events as the UCDP GED API delivers them, and the casting step of
 * `cast_and_aggregate` (src/containers/ucdp-container/ucdp_scraper.py) that turns
 * them into rows: `date_start` parsed to a date or null, and the four casualty
 * columns coerced to integers with missing or unparsable values as 0.
 */
module UcdpEvents {
  import opened Wrappers
  import opened Numerals

  /** One cell of a casualty column: absent or `null`, a JSON number, or a JSON string. */
  datatype NumericCell = Null | Number(d: Decimal) | Text(s: string)

  datatype Date = Date(year: int, month: int, day: int)

  /** The `date_start` cell: absent or `null`, the API's text, or a value already parsed. */
  datatype DateCell = NoDate | DateText(text: string) | DateValue(date: Date)

  /** The fields of one event object that the pipeline reads; `None` is an absent key or `null`. */
  datatype RawEvent = RawEvent(
    id: Option<int>,
    countryId: Option<int>,
    country: Option<string>,
    year: Option<int>,
    dateStart: DateCell,
    dyadNewId: Option<int>,
    typeOfViolence: Option<int>,
    best: NumericCell,
    low: NumericCell,
    high: NumericCell,
    deathsCivilians: NumericCell)

  /** An event after casting: the date is a date or null, the four counts are integers. */
  datatype Row = Row(
    id: Option<int>,
    countryId: Option<int>,
    country: Option<string>,
    year: Option<int>,
    dateStart: Option<Date>,
    dyadNewId: Option<int>,
    typeOfViolence: Option<int>,
    best: int,
    low: int,
    high: int,
    deathsCivilians: int)

  /**
   * `pd.to_numeric(col, errors="coerce").fillna(0).astype(int)` on one cell:
   * missing and unparsable cells become 0, fractional numbers are cut toward zero.
   */
  function Coerce(c: NumericCell): (n: int)
    ensures c.Null? ==> n == 0
    ensures c.Text? && ParseDecimal(c.s).None? ==> n == 0
    ensures c.Text? && ParseInt(c.s).Some? ==> n == ParseInt(c.s).value
    ensures c.Text? && ParseDecimal(c.s).Some? ==> n == TruncateTowardZero(ParseDecimal(c.s).value)
    ensures c.Number? ==> n == TruncateTowardZero(c.d)
    ensures c.Number? && c.d.scale == 0 ==> n == c.d.mantissa
    ensures c.Number? && c.d.mantissa >= 0 ==> n * Pow10(c.d.scale) <= c.d.mantissa < (n + 1) * Pow10(c.d.scale)
    ensures c.Number? && c.d.mantissa < 0 ==> (n - 1) * Pow10(c.d.scale) < c.d.mantissa <= n * Pow10(c.d.scale)
  {
    match c
    case Null => 0
    case Number(d) => TruncateTowardZero(d)
    case Text(s) =>
      match ParseDecimal(s)
      case Some(d) => TruncateTowardZero(d)
      case None => 0
  }

  /**
   * `pd.to_datetime(col, errors="coerce")` on one cell. The date parser is pandas'
   * and is taken as a parameter: `toDate` returns `None` for text it cannot read.
   */
  function ParseDateCell(c: DateCell, toDate: string -> Option<Date>): (d: Option<Date>)
    ensures c.NoDate? ==> d.None?
    ensures c.DateText? ==> d == toDate(c.text)
    ensures c.DateValue? ==> d == Some(c.date)
  {
    match c
    case NoDate => None
    case DateText(s) => toDate(s)
    case DateValue(v) => Some(v)
  }

  function CastEvent(e: RawEvent, toDate: string -> Option<Date>): Row {
    Row(e.id, e.countryId, e.country, e.year, ParseDateCell(e.dateStart, toDate),
        e.dyadNewId, e.typeOfViolence,
        Coerce(e.best), Coerce(e.low), Coerce(e.high), Coerce(e.deathsCivilians))
  }

  /**
   * Lines 66-68 of the scraper over the whole event table: one row out per event in,
   * in the same order, the identifying columns untouched, `date_start` parsed and the
   * four casualty columns coerced.
   */
  function Cast(events: seq<RawEvent>, toDate: string -> Option<Date>): (rows: seq<Row>)
    ensures |rows| == |events|
    ensures forall i :: 0 <= i < |events| ==>
      && rows[i].id == events[i].id
      && rows[i].countryId == events[i].countryId
      && rows[i].country == events[i].country
      && rows[i].year == events[i].year
      && rows[i].dyadNewId == events[i].dyadNewId
      && rows[i].typeOfViolence == events[i].typeOfViolence
    ensures forall i :: 0 <= i < |events| ==> rows[i].dateStart == ParseDateCell(events[i].dateStart, toDate)
    ensures forall i :: 0 <= i < |events| ==>
      && rows[i].best == Coerce(events[i].best)
      && rows[i].low == Coerce(events[i].low)
      && rows[i].high == Coerce(events[i].high)
      && rows[i].deathsCivilians == Coerce(events[i].deathsCivilians)
  {
    seq(|events|, i requires 0 <= i < |events| => CastEvent(events[i], toDate))
  }

  /** A cast row seen again as an event: its integers as numbers, its date as a date value. */
  function AsEvent(r: Row): RawEvent {
    RawEvent(r.id, r.countryId, r.country, r.year,
             match r.dateStart case Some(d) => DateValue(d) case None => NoDate,
             r.dyadNewId, r.typeOfViolence,
             Number(Decimal(r.best, 0)), Number(Decimal(r.low, 0)),
             Number(Decimal(r.high, 0)), Number(Decimal(r.deathsCivilians, 0)))
  }

  /** Casting is idempotent: casting the rows of an already cast table gives them back. */
  lemma CastIdempotent(events: seq<RawEvent>, toDate: string -> Option<Date>)
    ensures var rows := Cast(events, toDate);
            Cast(seq(|rows|, i requires 0 <= i < |rows| => AsEvent(rows[i])), toDate) == rows
  {
    var rows := Cast(events, toDate);
    var again := seq(|rows|, i requires 0 <= i < |rows| => AsEvent(rows[i]));
    var recast := Cast(again, toDate);
    forall i | 0 <= i < |rows|
      ensures recast[i] == rows[i]
    {
      assert again[i] == AsEvent(rows[i]);
    }
  }

  /** A numeral written as JSON text is read as the same integer. */
  lemma CoerceNumeralText(n: int)
    ensures Coerce(Text(IntToString(n))) == n
  {
    ParseIntToString(n);
  }

  /**
   * A fractional numeral written as JSON text keeps its integer part: `"12.75"` is 12 and
   * `"-0.5"` is 0, because `.astype(int)` cuts toward zero.
   */
  lemma CoerceDecimalText(sign: string, w: string, f: string)
    requires sign == "" || sign == "-" || sign == "+"
    requires AllDigits(w) && AllDigits(f) && |w| + |f| > 0
    ensures Coerce(Text(sign + (w + "." + f))) == Signed(sign, DigitsValue(w))
  {
    ParseDecimalValue(sign, w, f);
    TruncateDropsFraction(sign, w, f);
  }
}
