/** The rows of the table: one record per element of the fetched `data` array. */
module Records {
  import opened JsStrings

  /** A well-formed row; every field is a string value. */
  datatype Record = Record(
    symbol: JsString,
    timeframe: JsString,
    startDate: JsString,
    endDate: JsString,
    file: JsString)

  /** The property names a row can be sorted by: "symbol", "timeframe",
      "start_date", "end_date" and "file". */
  datatype Column = Symbol | Timeframe | StartDate | EndDate | File

  /** The property name the state `orderBy` holds for each column. */
  function PropertyName(column: Column): string {
    match column
    case Symbol => "symbol"
    case Timeframe => "timeframe"
    case StartDate => "start_date"
    case EndDate => "end_date"
    case File => "file"
  }

  /** A row as the object the fetch delivers: its properties by name. */
  function Properties(r: Record): map<string, JsString> {
    map["symbol" := r.symbol, "timeframe" := r.timeframe, "start_date" := r.startDate,
        "end_date" := r.endDate, "file" := r.file]
  }

  /** Property access `r[column]`: one of the row's own five string properties, a
      date property for the date columns. */
  function Field(r: Record, column: Column): (v: JsString)
    ensures v in [r.symbol, r.timeframe, r.startDate, r.endDate, r.file]
    ensures IsDateColumn(column) ==> v == r.startDate || v == r.endDate
  {
    match column
    case Symbol => r.symbol
    case Timeframe => r.timeframe
    case StartDate => r.startDate
    case EndDate => r.endDate
    case File => r.file
  }

  /** The columns compared as calendar dates rather than as text. */
  predicate IsDateColumn(column: Column) {
    column == StartDate || column == EndDate
  }

  /** `r[column]` reads the property whose name the column holds: "start_date" reads
      the start date and never the end date, and so on for every column. */
  lemma FieldReadsNamedProperty(r: Record, column: Column)
    ensures PropertyName(column) in Properties(r)
    ensures Field(r, column) == Properties(r)[PropertyName(column)]
  {
  }
}
