/** `load_sensor_a`: a CSV file already split into a header and rows of
    text, reduced to the canonical columns. Sensors A and C use this loader.
 */
module Tabular {
  import opened JsonData
  import opened Frames

  /** A CSV file as `pd.read_csv(dtype=str)` hands it over: a header and
      rows of text as wide as the header (the reader pads short rows). */
  datatype Csv = Csv(header: seq<string>, rows: seq<seq<string>>)

  predicate WellFormed(csv: Csv) {
    forall k | 0 <= k < |csv.rows| :: |csv.rows[k]| == |csv.header|
  }

  /** The sensor's own column names and the canonical column each becomes. */
  function Rename(name: string): string {
    if name == "asset_id" then "artifact_id"
    else if name == "measure_type" then "sdc_kind"
    else if name == "unit" then "unit_label"
    else if name == "reading" then "value"
    else if name == "time" then "timestamp"
    else name
  }

  /** What a header name is after renaming: one of the canonical columns, or
      some other column that the loader drops. */
  datatype Column = Canon(field: Field) | Other(name: string)

  function Classify(header: string): Column {
    var name := Rename(header);
    if name == "artifact_id" then Canon(ArtifactId)
    else if name == "sdc_kind" then Canon(SdcKind)
    else if name == "unit_label" then Canon(UnitLabel)
    else if name == "value" then Canon(Value)
    else if name == "timestamp" then Canon(Timestamp)
    else Other(name)
  }

  /** A header is recognised as a canonical field exactly when it renames to
      that field's column name. */
  lemma ClassifyRecognisesColumnNames(header: string)
    ensures forall f: Field :: Classify(header) == Canon(f) <==> Rename(header) == ColumnName(f)
  {
    var name := Rename(header);
    ColumnNameInjective();
    if Classify(header).Other? {
      assert forall f: Field :: ColumnName(f) != name;
    }
  }

  /** The only cell texts read as missing (`keep_default_na=False` with
      `na_values=["", "NA", "NaN"]`). */
  const MissingMarkers: set<string> := {"", "NA", "NaN"}

  function ReadCell(text: string): (c: Cell)
    ensures c == NaN <==> text in MissingMarkers
    ensures c != NaN ==> c == Py(JStr(text))
  {
    if text in MissingMarkers then NaN else Py(JStr(text))
  }

  predicate Has(cols: seq<Column>, f: Field) {
    exists j | 0 <= j < |cols| :: cols[j] == Canon(f)
  }

  /** Positions, ascending, of the columns classified as `f`. */
  function PositionsOf(cols: seq<Column>, f: Field): (ix: seq<nat>)
    ensures forall m | 0 <= m < |ix| :: ix[m] < |cols| && cols[ix[m]] == Canon(f)
    ensures Has(cols, f) ==> |ix| > 0
  {
    if cols == [] then []
    else
      var last := |cols| - 1;
      var front := PositionsOf(cols[..last], f);
      assert Has(cols, f) && cols[last] != Canon(f) ==> Has(cols[..last], f) by {
        if Has(cols, f) && cols[last] != Canon(f) {
          var j :| 0 <= j < |cols| && cols[j] == Canon(f);
          assert cols[..last][j] == cols[j];
        }
      }
      front + (if cols[last] == Canon(f) then [last] else [])
  }

  function FieldOfRank(r: nat): (f: Field)
    requires r < 5
    ensures Rank(f) == r
  {
    if r == 0 then ArtifactId
    else if r == 1 then SdcKind
    else if r == 2 then UnitLabel
    else if r == 3 then Value
    else Timestamp
  }

  lemma FieldOfRankInverse(f: Field)
    ensures FieldOfRank(Rank(f)) == f
  {
  }

  predicate RankSorted(cols: seq<Column>, ix: seq<nat>)
    requires forall m | 0 <= m < |ix| :: ix[m] < |cols| && cols[ix[m]].Canon?
  {
    forall m, n | 0 <= m < n < |ix| :: Rank(cols[ix[m]].field) <= Rank(cols[ix[n]].field)
  }

  /** Positions of the columns `df[[c for c in canonical if c in df.columns]]`
      keeps: for each canonical field from rank `from` on, every column of
      that field, in header order. */
  function Selection(cols: seq<Column>, from: nat): (ix: seq<nat>)
    requires from <= 5
    ensures forall m | 0 <= m < |ix| :: ix[m] < |cols| && cols[ix[m]].Canon? && from <= Rank(cols[ix[m]].field)
    ensures forall f: Field | from <= Rank(f) && Has(cols, f) :: exists m | 0 <= m < |ix| :: cols[ix[m]] == Canon(f)
    ensures RankSorted(cols, ix)
    decreases 5 - from
  {
    if from == 5 then []
    else
      var here := PositionsOf(cols, FieldOfRank(from));
      var rest := Selection(cols, from + 1);
      SelectionStep(cols, from, here, rest);
      here + rest
  }

  lemma SelectionStep(cols: seq<Column>, from: nat, here: seq<nat>, rest: seq<nat>)
    requires from < 5
    requires forall m | 0 <= m < |here| :: here[m] < |cols| && cols[here[m]] == Canon(FieldOfRank(from))
    requires Has(cols, FieldOfRank(from)) ==> |here| > 0
    requires forall m | 0 <= m < |rest| :: rest[m] < |cols| && cols[rest[m]].Canon? && from + 1 <= Rank(cols[rest[m]].field)
    requires forall f: Field | from + 1 <= Rank(f) && Has(cols, f) :: exists m | 0 <= m < |rest| :: cols[rest[m]] == Canon(f)
    requires RankSorted(cols, rest)
    ensures forall m | 0 <= m < |here + rest| ::
              (here + rest)[m] < |cols| && cols[(here + rest)[m]].Canon? && from <= Rank(cols[(here + rest)[m]].field)
    ensures forall f: Field | from <= Rank(f) && Has(cols, f) ::
              exists m | 0 <= m < |here + rest| :: cols[(here + rest)[m]] == Canon(f)
    ensures RankSorted(cols, here + rest)
  {
    SelectionStepBounds(cols, from, here, rest);
    SelectionStepCovers(cols, from, here, rest);
    SelectionStepSorted(cols, from, here, rest);
  }

  lemma SelectionStepBounds(cols: seq<Column>, from: nat, here: seq<nat>, rest: seq<nat>)
    requires from < 5
    requires forall m | 0 <= m < |here| :: here[m] < |cols| && cols[here[m]] == Canon(FieldOfRank(from))
    requires forall m | 0 <= m < |rest| :: rest[m] < |cols| && cols[rest[m]].Canon? && from + 1 <= Rank(cols[rest[m]].field)
    ensures forall m | 0 <= m < |here + rest| ::
              (here + rest)[m] < |cols| && cols[(here + rest)[m]].Canon? && from <= Rank(cols[(here + rest)[m]].field)
  {
    var all := here + rest;
    forall m | 0 <= m < |all| ensures all[m] < |cols| && cols[all[m]].Canon? && from <= Rank(cols[all[m]].field) {
      if m < |here| {
        assert all[m] == here[m];
      } else {
        assert all[m] == rest[m - |here|];
      }
    }
  }

  lemma SelectionStepCovers(cols: seq<Column>, from: nat, here: seq<nat>, rest: seq<nat>)
    requires from < 5
    requires forall m | 0 <= m < |here| :: here[m] < |cols| && cols[here[m]] == Canon(FieldOfRank(from))
    requires Has(cols, FieldOfRank(from)) ==> |here| > 0
    requires forall m | 0 <= m < |rest| :: rest[m] < |cols|
    requires forall f: Field | from + 1 <= Rank(f) && Has(cols, f) :: exists m | 0 <= m < |rest| :: cols[rest[m]] == Canon(f)
    ensures forall m | 0 <= m < |here + rest| :: (here + rest)[m] < |cols|
    ensures forall f: Field | from <= Rank(f) && Has(cols, f) ::
              exists m | 0 <= m < |here + rest| :: cols[(here + rest)[m]] == Canon(f)
  {
    var all := here + rest;
    forall m | 0 <= m < |all| ensures all[m] < |cols| {
      if m < |here| {
        assert all[m] == here[m];
      } else {
        assert all[m] == rest[m - |here|];
      }
    }
    forall f: Field | from <= Rank(f) && Has(cols, f) ensures exists m | 0 <= m < |all| :: cols[all[m]] == Canon(f) {
      if Rank(f) == from {
        FieldOfRankInverse(f);
        assert all[0] == here[0];
        assert cols[all[0]] == Canon(f);
      } else {
        var m :| 0 <= m < |rest| && cols[rest[m]] == Canon(f);
        assert all[|here| + m] == rest[m];
        assert cols[all[|here| + m]] == Canon(f);
      }
    }
  }

  lemma SelectionStepSorted(cols: seq<Column>, from: nat, here: seq<nat>, rest: seq<nat>)
    requires from < 5
    requires forall m | 0 <= m < |here| :: here[m] < |cols| && cols[here[m]] == Canon(FieldOfRank(from))
    requires forall m | 0 <= m < |rest| :: rest[m] < |cols| && cols[rest[m]].Canon? && from + 1 <= Rank(cols[rest[m]].field)
    requires RankSorted(cols, rest)
    ensures forall m | 0 <= m < |here + rest| :: (here + rest)[m] < |cols| && cols[(here + rest)[m]].Canon?
    ensures RankSorted(cols, here + rest)
  {
    var all := here + rest;
    SelectionStepBounds(cols, from, here, rest);
    forall m, n | 0 <= m < n < |all| ensures Rank(cols[all[m]].field) <= Rank(cols[all[n]].field) {
      if n < |here| {
        assert all[m] == here[m] && all[n] == here[n];
        assert Rank(cols[here[m]].field) == from == Rank(cols[here[n]].field);
      } else if m < |here| {
        assert all[m] == here[m] && all[n] == rest[n - |here|];
        assert Rank(cols[here[m]].field) == from;
        assert from + 1 <= Rank(cols[rest[n - |here|]].field);
      } else {
        var p, q := m - |here|, n - |here|;
        assert all[m] == rest[p] && all[n] == rest[q];
        assert Rank(cols[rest[p]].field) <= Rank(cols[rest[q]].field);
      }
    }
  }

  /** A frame as pandas holds it: canonical columns in order, rows of cells,
      and for each kept column the header position it was read from. */
  datatype Table = Table(columns: seq<Field>, origin: seq<nat>, rows: seq<seq<Cell>>)

  function Classified(header: seq<string>): (cols: seq<Column>)
    ensures |cols| == |header|
    ensures forall j | 0 <= j < |header| :: cols[j] == Classify(header[j])
  {
    seq(|header|, j requires 0 <= j < |header| => Classify(header[j]))
  }

  /** Some header name renames to the column of `f`. */
  predicate Names(header: seq<string>, f: Field) {
    exists j | 0 <= j < |header| :: Classify(header[j]) == Canon(f)
  }

  /** A field is kept exactly when some header name renames to it. */
  lemma SelectionKeepsPresentFields(header: seq<string>, cols: seq<Column>, sel: seq<nat>, columns: seq<Field>)
    requires |cols| == |header|
    requires forall j | 0 <= j < |header| :: cols[j] == Classify(header[j])
    requires |columns| == |sel|
    requires forall m | 0 <= m < |sel| :: sel[m] < |cols| && cols[sel[m]] == Canon(columns[m])
    requires forall f: Field | Has(cols, f) :: exists m | 0 <= m < |sel| :: cols[sel[m]] == Canon(f)
    ensures forall m | 0 <= m < |sel| :: sel[m] < |header| && Classify(header[sel[m]]) == Canon(columns[m])
    ensures forall f: Field :: f in columns <==> Names(header, f)
  {
    forall f: Field
      ensures f in columns <==> Names(header, f)
    {
      if Names(header, f) {
        var j :| 0 <= j < |header| && Classify(header[j]) == Canon(f);
        assert cols[j] == Canon(f);
        assert Has(cols, f);
        var m :| 0 <= m < |sel| && cols[sel[m]] == Canon(f);
        assert columns[m] == f;
      }
      if f in columns {
        var m :| 0 <= m < |columns| && columns[m] == f;
        assert Classify(header[sel[m]]) == Canon(f);
      }
    }
  }

  /** The cells of one CSV row under the selected columns. */
  function ReadRow(row: seq<string>, sel: seq<nat>): (cells: seq<Cell>)
    requires forall m | 0 <= m < |sel| :: sel[m] < |row|
    ensures |cells| == |sel|
    ensures forall m | 0 <= m < |sel| :: cells[m] == ReadCell(row[sel[m]])
  {
    seq(|sel|, m requires 0 <= m < |sel| => ReadCell(row[sel[m]]))
  }

  /** The fields of the selected columns. */
  function FieldsAt(cols: seq<Column>, sel: seq<nat>): (fs: seq<Field>)
    requires forall m | 0 <= m < |sel| :: sel[m] < |cols| && cols[sel[m]].Canon?
    ensures |fs| == |sel|
    ensures forall m | 0 <= m < |sel| :: cols[sel[m]] == Canon(fs[m])
  {
    seq(|sel|, m requires 0 <= m < |sel| => cols[sel[m]].field)
  }

  /** Fields listed in canonical order (duplicates adjacent). */
  predicate InCanonicalOrder(fs: seq<Field>) {
    forall m, n | 0 <= m < n < |fs| :: Rank(fs[m]) <= Rank(fs[n])
  }

  lemma FieldsAtInOrder(cols: seq<Column>, sel: seq<nat>, fs: seq<Field>)
    requires forall m | 0 <= m < |sel| :: sel[m] < |cols| && cols[sel[m]].Canon?
    requires RankSorted(cols, sel)
    requires |fs| == |sel| && forall m | 0 <= m < |sel| :: cols[sel[m]] == Canon(fs[m])
    ensures InCanonicalOrder(fs)
  {
  }

  /** Every CSV row read under the selected columns. */
  function ReadRows(csv: Csv, sel: seq<nat>): (rows: seq<seq<Cell>>)
    requires WellFormed(csv)
    requires forall m | 0 <= m < |sel| :: sel[m] < |csv.header|
    ensures |rows| == |csv.rows|
    ensures forall k | 0 <= k < |rows| :: |rows[k]| == |sel|
    ensures forall k, m | 0 <= k < |rows| && 0 <= m < |sel| :: rows[k][m] == ReadCell(csv.rows[k][sel[m]])
  {
    seq(|csv.rows|, k requires 0 <= k < |csv.rows| => ReadRow(csv.rows[k], sel))
  }

  lemma KeptColumnsFacts(header: seq<string>, cols: seq<Column>, sel: seq<nat>, columns: seq<Field>)
    requires cols == Classified(header)
    requires sel == Selection(cols, 0)
    requires columns == FieldsAt(cols, sel)
    ensures |columns| == |sel|
    ensures forall m | 0 <= m < |sel| :: sel[m] < |header| && Classify(header[sel[m]]) == Canon(columns[m])
    ensures InCanonicalOrder(columns)
    ensures forall f: Field :: f in columns <==> Names(header, f)
  {
    FieldsAtInOrder(cols, sel, columns);
    SelectionKeepsPresentFields(header, cols, sel, columns);
  }

  /** The canonical columns `load_sensor_a` keeps, each with the header
      position it is read from. */
  function KeptColumns(header: seq<string>): (kept: (seq<Field>, seq<nat>))
    ensures |kept.0| == |kept.1|
    ensures forall m | 0 <= m < |kept.1| :: kept.1[m] < |header| && Classify(header[kept.1[m]]) == Canon(kept.0[m])
    ensures InCanonicalOrder(kept.0)
    ensures forall f: Field :: f in kept.0 <==> Names(header, f)
  {
    var cols := Classified(header);
    var sel := Selection(cols, 0);
    var columns := FieldsAt(cols, sel);
    KeptColumnsFacts(header, cols, sel, columns);
    (columns, sel)
  }

  /** `load_sensor_a`: rename the alias columns, keep only the canonical
      columns that exist, in canonical order, and read exactly `""`, `"NA"`
      and `"NaN"` as missing. */
  function LoadTabular(csv: Csv): (t: Table)
    requires WellFormed(csv)
    ensures InCanonicalOrder(t.columns)
    ensures forall f: Field :: f in t.columns <==> Names(csv.header, f)
    ensures |t.origin| == |t.columns|
    ensures forall m | 0 <= m < |t.origin| ::
              t.origin[m] < |csv.header| && Classify(csv.header[t.origin[m]]) == Canon(t.columns[m])
    ensures |t.rows| == |csv.rows|
    ensures forall k | 0 <= k < |t.rows| :: |t.rows[k]| == |t.columns|
    ensures forall k, m | 0 <= k < |t.rows| && 0 <= m < |t.columns| ::
              t.rows[k][m] == ReadCell(csv.rows[k][t.origin[m]])
  {
    var kept := KeptColumns(csv.header);
    Table(kept.0, kept.1, ReadRows(csv, kept.1))
  }

  /** The cell under `f` in a table row: the first column of that field, or
      `NaN` when the table lacks the column (what `pd.concat` fills in). */
  function CellUnder(columns: seq<Field>, row: seq<Cell>, f: Field): (c: Cell)
    requires |row| == |columns|
    ensures f !in columns ==> c == NaN
    ensures f in columns ==> exists m | 0 <= m < |columns| :: columns[m] == f && c == row[m]
  {
    if columns == [] then NaN
    else if columns[0] == f then row[0]
    else CellUnder(columns[1..], row[1..], f)
  }

  /** The loaded table as a frame of canonical rows. */
  function TableFrame(t: Table): (fr: Frame)
    requires forall k | 0 <= k < |t.rows| :: |t.rows[k]| == |t.columns|
    ensures forall f :: f in fr.columns <==> f in t.columns
    ensures |fr.rows| == |t.rows|
    ensures forall k, f | 0 <= k < |t.rows| && f !in t.columns :: FieldCell(fr.rows[k], f) == NaN
    ensures forall k, f | 0 <= k < |t.rows| && f in t.columns ::
              exists m | 0 <= m < |t.columns| :: t.columns[m] == f && FieldCell(fr.rows[k], f) == t.rows[k][m]
  {
    Frame(set f | f in t.columns,
          seq(|t.rows|, k requires 0 <= k < |t.rows| => TableRow(t.columns, t.rows[k])))
  }

  /** One table row as a canonical row. */
  function TableRow(columns: seq<Field>, row: seq<Cell>): (r: RawRow)
    requires |row| == |columns|
    ensures forall f | f !in columns :: FieldCell(r, f) == NaN
    ensures forall f | f in columns :: exists m | 0 <= m < |columns| :: columns[m] == f && FieldCell(r, f) == row[m]
  {
    RawRow(CellUnder(columns, row, ArtifactId), CellUnder(columns, row, SdcKind),
           CellUnder(columns, row, UnitLabel), CellUnder(columns, row, Value),
           CellUnder(columns, row, Timestamp))
  }

  /** `"N/A"` and `"nan"` are not missing markers: they stay in the frame as text. */
  lemma OnlyThreeMarkersAreMissing()
    ensures ReadCell("N/A") == Py(JStr("N/A"))
    ensures ReadCell("nan") == Py(JStr("nan"))
    ensures ReadCell("NA") == NaN && ReadCell("NaN") == NaN && ReadCell("") == NaN
  {
  }
}
