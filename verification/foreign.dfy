/** Library calls whose internals are not modelled (`json.loads`, Python's
    `str()` of numbers and containers, `pd.to_numeric`, `dateutil`'s parser and
    `datetime.isoformat`). They enter the model as parameters: every lemma in
    the project holds for every choice of them.
 */
module Foreign {
  import opened Common
  import opened JsonData

  /** A parsed date-time: its wall-clock fields, rendered, and its UTC offset in
      seconds, `None` for a naive time. */
  datatype Stamp = Stamp(wall: string, utcOffset: Option<int>)

  datatype Library = Library(
    parseJson: string -> Option<Json>,    // json.loads; None where it raises JSONDecodeError
    repr: Json -> string,                 // str() of a number, list or dict
    toNumeric: Json -> Option<real>,      // pd.to_numeric(errors="coerce") on a present cell; None for NaN
    parseDate: string -> Option<Stamp>,   // dateutil.parser.parse; None where it raises or returns None
    isoUtc: Stamp -> Option<string>)      // dt.astimezone(timezone.utc).isoformat() for an aware dt;
                                          // None where it raises (an OverflowError when the UTC time
                                          // leaves the years 1 to 9999)
}
