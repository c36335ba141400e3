/** `normalize_and_clean` and the script that feeds it: every field of the
    combined frame cleaned, incomplete rows dropped, the rest ordered by
    (artifact_id, timestamp).
 */
module Cleaning {
  import opened Common
  import opened Text
  import opened JsonData
  import opened Foreign
  import opened Frames
  import opened Tabular
  import opened SensorJson
  import opened Timestamps
  import opened Synonyms

  /** A row after cleaning. The three text columns are always text (after
      `astype(str)` a missing cell reads `"nan"` or `"None"`); the value and
      timestamp may be missing. */
  datatype Row = Row(artifactId: string, kind: string, unit: string,
                     value: Option<real>, timestamp: Option<string>)

  /** The per-cell cleaning of one row. */
  function CleanRow(raw: RawRow, lib: Library): (row: Row)
    ensures ' ' !in row.artifactId && NoOuterSpace(row.artifactId)
    ensures row.kind in KindNames || row.kind == Strip(Str(raw.kind, lib))
    ensures row.unit in UnitLabels || row.unit == Strip(Str(raw.unit, lib))
    ensures IsMissing(raw.value) ==> row.value.None?
    ensures row.timestamp.None? <==> || IsMissing(raw.timestamp) || Strip(Str(raw.timestamp, lib)) == []
                                     || lib.parseDate(Str(raw.timestamp, lib)).None?
                                     || lib.isoUtc(AssumeUtc(lib.parseDate(Str(raw.timestamp, lib)).value)).None?
    ensures row.timestamp.Some? ==> EndsWithZ(row.timestamp.value)
  {
    NormalizeKindRange(Strip(Str(raw.kind, lib)));
    NormalizeUnitRange(Strip(Str(raw.unit, lib)));
    Row(CleanArtifact(Str(raw.artifactId, lib)),
        NormalizeKind(Strip(Str(raw.kind, lib))),
        NormalizeUnit(Strip(Str(raw.unit, lib))),
        if IsMissing(raw.value) then None else lib.toNumeric(raw.value.v),
        ToIso8601(raw.timestamp, lib))
  }

  function CleanRows(raws: seq<RawRow>, lib: Library): (rows: seq<Row>)
    ensures |rows| == |raws|
    ensures forall k | 0 <= k < |raws| :: rows[k] == CleanRow(raws[k], lib)
  {
    seq(|raws|, k requires 0 <= k < |raws| => CleanRow(raws[k], lib))
  }

  /** A row `dropna` keeps: the text columns are never missing, so only the
      value and the timestamp decide. */
  predicate Complete(row: Row) {
    row.value.Some? && row.timestamp.Some?
  }

  /** `dropna(subset=[all five columns])`. */
  function DropIncomplete(rows: seq<Row>): (kept: seq<Row>)
    ensures forall k | 0 <= k < |kept| :: Complete(kept[k])
    ensures forall x :: multiset(kept)[x] == if Complete(x) then multiset(rows)[x] else 0
    ensures |kept| <= |rows|
  {
    if rows == [] then []
    else
      var rest := DropIncomplete(rows[1..]);
      DropStep(rows, rest);
      if Complete(rows[0]) then [rows[0]] + rest else rest
  }

  /** One step of `DropIncomplete`: the head is kept exactly when complete. */
  lemma DropStep(rows: seq<Row>, rest: seq<Row>)
    requires rows != []
    requires forall x :: multiset(rest)[x] == if Complete(x) then multiset(rows[1..])[x] else 0
    ensures var kept := if Complete(rows[0]) then [rows[0]] + rest else rest;
            forall x :: multiset(kept)[x] == if Complete(x) then multiset(rows)[x] else 0
  {
    assert rows == [rows[0]] + rows[1..];
    assert multiset(rows) == multiset{rows[0]} + multiset(rows[1..]);
  }

  /** Whether a row is dropped depends on its value and timestamp cells
      alone: the text cells play no part, even when missing. */
  lemma DropIgnoresTextCells(r1: RawRow, r2: RawRow, lib: Library)
    requires r1.value == r2.value && r1.timestamp == r2.timestamp
    ensures Complete(CleanRow(r1, lib)) <==> Complete(CleanRow(r2, lib))
  {
  }

  /** A missing artifact id is cleaned to the text `"nan"`, not to a missing
      cell, so it never causes a drop. */
  lemma MissingArtifactReadsNan(lib: Library)
    ensures CleanArtifact(Str(NaN, lib)) == "nan"
  {
    assert "nan"[0] == 'n' && "nan"[2] == 'n';
    assert ' ' !in "nan" by {
      assert forall k | 0 <= k < 3 :: "nan"[k] == 'n' || "nan"[k] == 'a';
    }
    CleanArtifactOfPlainText("nan");
  }

  /* ---------------------------------------------------------------------------
     Ordering by (artifact_id, timestamp)
     ------------------------------------------------------------------------- */

  /** `sort_values(["artifact_id", "timestamp"])` order: by artifact, then by
      timestamp, each by code point. */
  predicate KeyLe(a: Row, b: Row) {
    || (LexLe(a.artifactId, b.artifactId) && a.artifactId != b.artifactId)
    || (a.artifactId == b.artifactId && LexLe(a.timestamp.GetOr([]), b.timestamp.GetOr([])))
  }

  lemma KeyLeTotal(a: Row, b: Row)
    ensures KeyLe(a, b) || KeyLe(b, a)
  {
    LexLeTotal(a.artifactId, b.artifactId);
    LexLeTotal(a.timestamp.GetOr([]), b.timestamp.GetOr([]));
  }

  lemma KeyLeTransitive(a: Row, b: Row, c: Row)
    requires KeyLe(a, b) && KeyLe(b, c)
    ensures KeyLe(a, c)
  {
    var x, y, z := a.artifactId, b.artifactId, c.artifactId;
    if x == y && y == z {
      LexLeTransitive(a.timestamp.GetOr([]), b.timestamp.GetOr([]), c.timestamp.GetOr([]));
    } else if x != y && y != z {
      LexLeTransitive(x, y, z);
      LexLeAntisymmetry(x, y);
    }
  }

  predicate Sorted(rows: seq<Row>) {
    forall i, j | 0 <= i < j < |rows| :: KeyLe(rows[i], rows[j])
  }

  lemma SortedCons(h: Row, t: seq<Row>)
    requires Sorted(t)
    requires forall k | 0 <= k < |t| :: KeyLe(h, t[k])
    ensures Sorted([h] + t)
  {
    var s := [h] + t;
    forall i, j | 0 <= i < j < |s| ensures KeyLe(s[i], s[j]) {
      if i == 0 {
        assert s[j] == t[j - 1];
      } else {
        assert s[i] == t[i - 1] && s[j] == t[j - 1];
      }
    }
  }

  /** Insertion of one row into a sorted sequence. */
  function Insert(x: Row, s: seq<Row>): (r: seq<Row>)
    requires Sorted(s)
    ensures Sorted(r)
    ensures multiset(r) == multiset(s) + multiset{x}
  {
    if s == [] then [x]
    else if KeyLe(x, s[0]) then
      assert forall k | 0 <= k < |s| :: KeyLe(x, s[k]) by {
        forall k | 0 <= k < |s| ensures KeyLe(x, s[k]) {
          if k > 0 {
            KeyLeTransitive(x, s[0], s[k]);
          }
        }
      }
      SortedCons(x, s);
      [x] + s
    else
      var t := s[1..];
      SortedTail(s);
      var rest := Insert(x, t);
      KeyLeTotal(x, s[0]);
      BelowAllInserted(s[0], x, t, rest);
      SortedCons(s[0], rest);
      assert s == [s[0]] + t;
      [s[0]] + rest
  }

  /** The tail of a sorted sequence is sorted and lies above its head. */
  lemma SortedTail(s: seq<Row>)
    requires Sorted(s) && s != []
    ensures Sorted(s[1..])
    ensures forall k | 0 <= k < |s[1..]| :: KeyLe(s[0], s[1..][k])
  {
    var t := s[1..];
    forall i, j | 0 <= i < j < |t| ensures KeyLe(t[i], t[j]) {
      assert t[i] == s[i + 1] && t[j] == s[j + 1];
    }
    forall k | 0 <= k < |t| ensures KeyLe(s[0], t[k]) {
      assert t[k] == s[k + 1];
    }
  }

  /** A row below every row of `t` and below `x` is below every row of any
      permutation of `t` with `x` added. */
  lemma BelowAllInserted(h: Row, x: Row, t: seq<Row>, rest: seq<Row>)
    requires KeyLe(h, x)
    requires forall k | 0 <= k < |t| :: KeyLe(h, t[k])
    requires multiset(rest) == multiset(t) + multiset{x}
    ensures forall k | 0 <= k < |rest| :: KeyLe(h, rest[k])
  {
    forall k | 0 <= k < |rest| ensures KeyLe(h, rest[k]) {
      assert rest[k] in multiset(rest);
      if rest[k] != x {
        assert rest[k] in multiset(t);
        var m :| 0 <= m < |t| && t[m] == rest[k];
      }
    }
  }

  /** The rows ordered by (artifact_id, timestamp): a sorted permutation. */
  function SortRows(rows: seq<Row>): (r: seq<Row>)
    ensures Sorted(r)
    ensures multiset(r) == multiset(rows)
  {
    if rows == [] then []
    else
      assert rows == [rows[0]] + rows[1..];
      Insert(rows[0], SortRows(rows[1..]))
  }

  /* ---------------------------------------------------------------------------
     normalize_and_clean
     ------------------------------------------------------------------------- */

  /** The first canonical column, in the order the function reads them, that
      the frame lacks. */
  function FirstMissing(columns: set<Field>): (f: Option<Field>)
    ensures f.None? <==> AllFields <= columns
    ensures f.Some? ==> f.value !in columns && forall g: Field | Rank(g) < Rank(f.value) :: g in columns
  {
    if ArtifactId !in columns then Some(ArtifactId)
    else if SdcKind !in columns then Some(SdcKind)
    else if UnitLabel !in columns then Some(UnitLabel)
    else if Value !in columns then Some(Value)
    else if Timestamp !in columns then Some(Timestamp)
    else None
  }

  /** `normalize_and_clean`: a `KeyError` naming the first missing canonical
      column, or the cleaned, complete rows in key order. */
  function NormalizeAndClean(frame: Frame, lib: Library): (r: Result<seq<Row>>)
    ensures r.Err? <==> !(AllFields <= frame.columns)
    ensures r.Err? ==> exists f: Field :: f !in frame.columns && r.error == KeyError(ColumnName(f))
                                          && forall g: Field | Rank(g) < Rank(f) :: g in frame.columns
    ensures r.Ok? ==> Sorted(r.value)
    ensures r.Ok? ==> forall k | 0 <= k < |r.value| :: Complete(r.value[k])
    ensures r.Ok? ==> forall x :: multiset(r.value)[x] ==
                                  if Complete(x) then multiset(CleanRows(frame.rows, lib))[x] else 0
  {
    match FirstMissing(frame.columns)
    case Some(f) => Err(KeyError(ColumnName(f)))
    case None => Ok(SortRows(DropIncomplete(CleanRows(frame.rows, lib))))
  }

  /** Every output row came from some input row. */
  lemma OutputRowsComeFromInput(frame: Frame, lib: Library, x: Row)
    requires NormalizeAndClean(frame, lib).Ok?
    requires x in NormalizeAndClean(frame, lib).value
    ensures exists k | 0 <= k < |frame.rows| :: x == CleanRow(frame.rows[k], lib)
  {
    var out := NormalizeAndClean(frame, lib).value;
    var cleaned := CleanRows(frame.rows, lib);
    assert x in multiset(out);
    assert x in multiset(cleaned);
    var k :| 0 <= k < |cleaned| && cleaned[k] == x;
  }

  /* ---------------------------------------------------------------------------
     The script: load A, B and C, combine, clean
     ------------------------------------------------------------------------- */

  /** `pd.concat([df_a, df_b, df_c])` of the two loaded CSV sensors and the
      JSON sensor's frame. */
  function Combined(a: Csv, fb: Frame, c: Csv): Frame
    requires WellFormed(a) && WellFormed(c)
  {
    ConcatFrames([TableFrame(LoadTabular(a)), fb, TableFrame(LoadTabular(c))])
  }

  /** The script: sensors A and C as CSV, sensor B as the text of its JSON
      file. An error of loading B propagates unchanged. */
  function NormalizeReadings(a: Csv, b: string, c: Csv, lib: Library): (r: Result<seq<Row>>)
    requires WellFormed(a) && WellFormed(c)
    ensures LoadJson(b, lib).Err? ==> r == Err(LoadJson(b, lib).error)
    ensures LoadJson(b, lib).Ok? ==> r == NormalizeAndClean(Combined(a, LoadJson(b, lib).value, c), lib)
  {
    var fb :- LoadJson(b, lib);
    NormalizeAndClean(Combined(a, fb, c), lib)
  }

  /** Cleaning three frames combined fails exactly when some canonical column
      is in none of them, naming the first such column; otherwise it keeps
      the complete cleaned rows of the three, as often as they occur. */
  lemma CleanThreeFrames(fa: Frame, fb: Frame, fc: Frame, lib: Library)
    ensures var r := NormalizeAndClean(ConcatFrames([fa, fb, fc]), lib);
            && (r.Err? <==> exists f: Field :: f !in fa.columns && f !in fb.columns && f !in fc.columns)
            && (r.Err? ==> exists f: Field :: && f !in fa.columns && f !in fb.columns && f !in fc.columns
                                              && r.error == KeyError(ColumnName(f))
                                              && forall g: Field | Rank(g) < Rank(f) ::
                                                   g in fa.columns || g in fb.columns || g in fc.columns)
            && (r.Ok? ==> forall x :: multiset(r.value)[x] ==
                                      if Complete(x) then multiset(CleanRows(fa.rows + fb.rows + fc.rows, lib))[x] else 0)
  {
    ConcatThreeColumns(fa, fb, fc);
    ConcatThreeRows(fa, fb, fc);
    CleanUnion(ConcatFrames([fa, fb, fc]), fa, fb, fc, lib);
  }

  /** `CleanThreeFrames` for any frame whose columns and rows are those of
      the three combined. */
  lemma CleanUnion(fr: Frame, fa: Frame, fb: Frame, fc: Frame, lib: Library)
    requires fr.columns == fa.columns + fb.columns + fc.columns
    requires fr.rows == fa.rows + fb.rows + fc.rows
    ensures var r := NormalizeAndClean(fr, lib);
            && (r.Err? <==> exists f: Field :: f !in fa.columns && f !in fb.columns && f !in fc.columns)
            && (r.Err? ==> exists f: Field :: && f !in fa.columns && f !in fb.columns && f !in fc.columns
                                              && r.error == KeyError(ColumnName(f))
                                              && forall g: Field | Rank(g) < Rank(f) ::
                                                   g in fa.columns || g in fb.columns || g in fc.columns)
            && (r.Ok? ==> forall x :: multiset(r.value)[x] ==
                                      if Complete(x) then multiset(CleanRows(fa.rows + fb.rows + fc.rows, lib))[x] else 0)
  {
    var r := NormalizeAndClean(fr, lib);
    AllFieldsEvery(fr.columns);
    if r.Err? {
      var f: Field :| f !in fr.columns;
      assert f !in fa.columns && f !in fb.columns && f !in fc.columns;
    } else {
      forall f: Field ensures f in fa.columns || f in fb.columns || f in fc.columns {
        assert f in fr.columns;
      }
    }
  }

  lemma ConcatThreeColumns(fa: Frame, fb: Frame, fc: Frame)
    ensures ConcatFrames([fa, fb, fc]).columns == fa.columns + fb.columns + fc.columns
  {
    var fs := [fa, fb, fc];
    forall f ensures f in ConcatFrames(fs).columns <==> f in fa.columns || f in fb.columns || f in fc.columns {
      if f in ConcatFrames(fs).columns {
        var k :| 0 <= k < 3 && f in fs[k].columns;
      } else {
        assert f !in fs[0].columns && f !in fs[1].columns && f !in fs[2].columns;
      }
    }
  }

  /** A loaded CSV sensor's frame has a canonical column iff its header names
      it. */
  lemma TableColumns(a: Csv)
    requires WellFormed(a)
    ensures forall f :: f in TableFrame(LoadTabular(a)).columns <==> Names(a.header, f)
  {
  }

  /** The script end to end. Once B has loaded, cleaning fails exactly when B
      has no record and some canonical column is named by neither CSV header,
      with a `KeyError` for the first such column. On success the rows are in
      key order, complete, and are the complete cleaned rows of A, B and C,
      each as often as it occurs. */
  lemma NormalizeReadingsOutcome(a: Csv, b: string, c: Csv, lib: Library)
    requires WellFormed(a) && WellFormed(c)
    requires LoadJson(b, lib).Ok?
    ensures var r := NormalizeReadings(a, b, c, lib);
            && (r.Err? <==> FileRecords(b, lib).value == [] && exists f: Field :: !Names(a.header, f) && !Names(c.header, f))
            && (r.Err? ==> exists f: Field :: && !Names(a.header, f) && !Names(c.header, f)
                                              && r.error == KeyError(ColumnName(f))
                                              && forall g: Field | Rank(g) < Rank(f) :: Names(a.header, g) || Names(c.header, g))
            && (r.Ok? ==> Sorted(r.value) && forall k | 0 <= k < |r.value| :: Complete(r.value[k]))
            && (r.Ok? ==> forall x :: multiset(r.value)[x] ==
                            if Complete(x)
                            then multiset(CleanRows(TableFrame(LoadTabular(a)).rows + LoadJson(b, lib).value.rows
                                                    + TableFrame(LoadTabular(c)).rows, lib))[x]
                            else 0)
  {
    var fa, fb, fc := TableFrame(LoadTabular(a)), LoadJson(b, lib).value, TableFrame(LoadTabular(c));
    CleanThreeFrames(fa, fb, fc, lib);
    TableColumns(a);
    TableColumns(c);
    assert fb.columns == if FileRecords(b, lib).value == [] then {} else AllFields;
  }

  /** B alone supplies all five canonical columns whenever it has a record,
      so the script then cannot fail on a missing column. */
  lemma NonEmptyJsonSuppliesEveryColumn(a: Csv, b: string, c: Csv, lib: Library)
    requires WellFormed(a) && WellFormed(c)
    requires LoadJson(b, lib).Ok? && FileRecords(b, lib).value != []
    ensures NormalizeReadings(a, b, c, lib).Ok?
  {
    NormalizeReadingsOutcome(a, b, c, lib);
  }

  /** A concatenation has every canonical column as soon as one input does. */
  lemma ConcatHasEveryColumn(fs: seq<Frame>, k: nat)
    requires k < |fs| && AllFields <= fs[k].columns
    ensures AllFields <= ConcatFrames(fs).columns
  {
    forall f | f in AllFields ensures f in ConcatFrames(fs).columns {
      assert f in fs[k].columns;
    }
  }
}
