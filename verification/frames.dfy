/** The data frames the loaders hand to the normaliser: rows of five cells
    under the canonical column names, and the set of columns a frame has.
 */
module Frames {
  import opened Common
  import opened JsonData
  import opened Foreign

  /** One pandas cell: `NaN` (a missing CSV cell, or a column a frame did not
      have), or a Python object (`None` is `Py(JNull)`). */
  datatype Cell = NaN | Py(v: Json)

  /** The five canonical columns, declared in their canonical order. */
  datatype Field = ArtifactId | SdcKind | UnitLabel | Value | Timestamp

  function ColumnName(f: Field): string {
    match f
    case ArtifactId => "artifact_id"
    case SdcKind => "sdc_kind"
    case UnitLabel => "unit_label"
    case Value => "value"
    case Timestamp => "timestamp"
  }

  lemma ColumnNameInjective()
    ensures forall f: Field, g: Field :: ColumnName(f) == ColumnName(g) ==> f == g
  {
    forall f: Field, g: Field | ColumnName(f) == ColumnName(g) ensures f == g {
      assert |ColumnName(f)| == |ColumnName(g)|;
    }
  }

  /** Position of a field in the canonical order. */
  function Rank(f: Field): nat {
    match f
    case ArtifactId => 0
    case SdcKind => 1
    case UnitLabel => 2
    case Value => 3
    case Timestamp => 4
  }

  const AllFields: set<Field> := {ArtifactId, SdcKind, UnitLabel, Value, Timestamp}

  /** A set of columns holds the five canonical ones iff it holds every
      field. */
  lemma AllFieldsEvery(columns: set<Field>)
    ensures AllFields <= columns <==> forall f: Field :: f in columns
  {
    if AllFields <= columns {
      forall f: Field ensures f in columns {
        match f {
          case ArtifactId => case SdcKind => case UnitLabel => case Value => case Timestamp =>
        }
      }
    }
  }

  /** A row of the combined frame, one cell per canonical column. */
  datatype RawRow = RawRow(artifactId: Cell, kind: Cell, unit: Cell, value: Cell, timestamp: Cell)

  /** The cell of a row under one column. */
  function FieldCell(row: RawRow, f: Field): Cell {
    match f
    case ArtifactId => row.artifactId
    case SdcKind => row.kind
    case UnitLabel => row.unit
    case Value => row.value
    case Timestamp => row.timestamp
  }

  datatype Frame = Frame(columns: set<Field>, rows: seq<RawRow>)

  /** `pd.concat(frames, ignore_index=True)`: rows one frame after another;
      a column any frame has is a column of the result (cells of frames
      without it were filled with NaN when the rows were built). */
  function ConcatFrames(fs: seq<Frame>): (f: Frame)
    ensures forall c :: c in f.columns <==> exists k | 0 <= k < |fs| :: c in fs[k].columns
    ensures |f.rows| == RowCount(fs)
    ensures RowsInOrder(fs, f.rows)
  {
    if fs == [] then Frame({}, [])
    else
      var rest := ConcatFrames(fs[1..]);
      ConcatColumnsStep(fs);
      ConcatRowsStep(fs, rest.rows);
      Frame(fs[0].columns + rest.columns, fs[0].rows + rest.rows)
  }

  /** Each frame's rows sit in `rows`, in their order, right after the rows
      of the frames before it. */
  predicate RowsInOrder(fs: seq<Frame>, rows: seq<RawRow>) {
    forall k, i | 0 <= k < |fs| && 0 <= i < |fs[k].rows| :: RowAt(fs, rows, k, i)
  }

  /** Row `i` of frame `k` sits in `rows` after the rows of the frames
      before it. */
  predicate RowAt(fs: seq<Frame>, rows: seq<RawRow>, k: nat, i: nat)
    requires k < |fs| && i < |fs[k].rows|
  {
    RowCount(fs[..k]) + i < |rows| && rows[RowCount(fs[..k]) + i] == fs[k].rows[i]
  }

  /** Number of rows of the frames together. */
  function RowCount(fs: seq<Frame>): nat {
    if fs == [] then 0 else |fs[0].rows| + RowCount(fs[1..])
  }

  /** A column is in some frame iff it is in the first or in some frame of
      the tail. */
  lemma ConcatColumnsStep(fs: seq<Frame>)
    requires fs != []
    ensures forall c :: (exists k | 0 <= k < |fs| :: c in fs[k].columns)
                        <==> c in fs[0].columns || exists k | 0 <= k < |fs[1..]| :: c in fs[1..][k].columns
  {
    forall c | exists k | 0 <= k < |fs| :: c in fs[k].columns
      ensures c in fs[0].columns || exists k | 0 <= k < |fs[1..]| :: c in fs[1..][k].columns
    {
      var k :| 0 <= k < |fs| && c in fs[k].columns;
      if k > 0 {
        assert c in fs[1..][k - 1].columns;
      }
    }
  }

  /** The rows of the frames before the `k`-th are those of the first frame
      and of the tail's frames before its `k - 1`-th. */
  lemma RowCountPrefix(fs: seq<Frame>, k: nat)
    requires 0 < k <= |fs|
    ensures RowCount(fs[..k]) == |fs[0].rows| + RowCount(fs[1..][..k - 1])
  {
    assert fs[..k][0] == fs[0];
    assert fs[..k][1..] == fs[1..][..k - 1];
  }

  /** Putting the first frame's rows in front of the tail's concatenation
      keeps every frame's rows at its offset. */
  lemma ConcatRowsStep(fs: seq<Frame>, restRows: seq<RawRow>)
    requires fs != []
    requires RowsInOrder(fs[1..], restRows)
    ensures RowsInOrder(fs, fs[0].rows + restRows)
  {
    var all := fs[0].rows + restRows;
    var tail := fs[1..];
    forall k, i | 0 <= k < |fs| && 0 <= i < |fs[k].rows|
      ensures RowAt(fs, all, k, i)
    {
      if k == 0 {
        assert fs[..0] == [];
      } else {
        RowCountPrefix(fs, k);
        var p := k - 1;
        assert fs[k] == tail[p];
        assert 0 <= p < |tail| && 0 <= i < |tail[p].rows|;
        var j := RowCount(tail[..p]) + i;
        assert RowAt(tail, restRows, p, i);
        assert all[|fs[0].rows| + j] == restRows[j];
      }
    }
  }

  /** Three frames combined have the rows of the first, then of the second,
      then of the third. */
  lemma ConcatThreeRows(x: Frame, y: Frame, z: Frame)
    ensures ConcatFrames([x, y, z]).rows == x.rows + y.rows + z.rows
  {
    assert [z][1..] == [];
    assert ConcatFrames([z]).rows == z.rows;
    assert [y, z][1..] == [z];
    assert ConcatFrames([y, z]).rows == y.rows + z.rows;
    assert [x, y, z][1..] == [y, z];
  }

  /** `pd.isna` of a cell. */
  predicate IsMissing(c: Cell) {
    c == NaN || c == Py(JNull)
  }

  /** `str(x)` of a cell, as `astype(str)` and `to_iso8601` compute it. */
  function Str(c: Cell, lib: Library): (s: string)
    ensures c == NaN ==> s == "nan"
    ensures c == Py(JNull) ==> s == "None"
    ensures c.Py? && c.v.JStr? ==> s == c.v.s
  {
    match c
    case NaN => "nan"
    case Py(JNull) => "None"
    case Py(JStr(s)) => s
    case Py(JBool(b)) => if b then "True" else "False"
    case Py(v) => lib.repr(v)
  }
}
