/**
 * The rows of the weekly price table, before and after loading.
 * Dates are day numbers (a timestamp at midnight), prices are opaque
 * reals that the dashboard never computes with.
 */
module Records {
  import opened Wrappers

  /** A calendar date as a day number. */
  type Day = int

  /** A price or moving-average value. */
  type Price = real

  /** A row as read from the table file: every required column may be missing. */
  datatype RawRecord = RawRecord(
    date: Option<Day>,
    open: Option<Price>,
    high: Option<Price>,
    low: Option<Price>,
    close: Option<Price>,
    volume: Option<int>,
    ticker: Option<string>,
    emaHigh: Option<Price>,
    emaLow: Option<Price>)

  /** A row of the loaded table: every required column is present. */
  datatype Record = Record(
    date: Day,
    open: Price,
    high: Price,
    low: Price,
    close: Price,
    volume: int,
    ticker: string,
    emaHigh: Price,
    emaLow: Price)

  /** The fields a user can plot. */
  datatype Field = Open | High | Low | Close | Volume | EmaHigh | EmaLow

  /** The plottable fields, in checklist order. */
  const Fields: seq<Field> := [Open, High, Low, Close, Volume, EmaHigh, EmaLow]

  /** The required columns, which are also the header of an export. */
  const ColumnNames: seq<string> :=
    ["Date", "Open", "High", "Low", "Close", "Volume", "Ticker", "EMA_High", "EMA_Low"]

  /**
   * The checklist offers every plottable field, and each one names a
   * required column other than the date and the ticker.
   */
  lemma FieldsListed(f: Field)
    ensures f in Fields
    ensures FieldName(f) in ColumnNames && FieldName(f) != "Date" && FieldName(f) != "Ticker"
  {
  }

  /** The column name of a plottable field, used as the name of its series. */
  function FieldName(f: Field): string {
    match f
    case Open => "Open"
    case High => "High"
    case Low => "Low"
    case Close => "Close"
    case Volume => "Volume"
    case EmaHigh => "EMA_High"
    case EmaLow => "EMA_Low"
  }

  /** The value a field takes in a row. */
  function FieldValue(r: Record, f: Field): real {
    match f
    case Open => r.open
    case High => r.high
    case Low => r.low
    case Close => r.close
    case Volume => r.volume as real
    case EmaHigh => r.emaHigh
    case EmaLow => r.emaLow
  }

  /** No required column of the row is missing. */
  predicate Complete(r: RawRecord) {
    && r.date.Some? && r.open.Some? && r.high.Some? && r.low.Some? && r.close.Some?
    && r.volume.Some? && r.ticker.Some? && r.emaHigh.Some? && r.emaLow.Some?
  }

  /** The date order the table is sorted by. */
  predicate DateLe(a: Record, b: Record) {
    a.date <= b.date
  }
}
