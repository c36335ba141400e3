/** `load_sensor_b`: a JSON (or NDJSON) document of readings reduced to rows
    of the five canonical columns. The document shape is chosen by a fixed
    precedence; each canonical field is then the first truthy value among
    its alias keys.
 */
module SensorJson {
  import opened Common
  import opened Text
  import opened JsonData
  import opened Foreign
  import opened Frames

  type Dict = map<string, Json>

  /* ---------------------------------------------------------------------------
     Iterating a value and calling `.get` on each element
     ------------------------------------------------------------------------- */

  /** `for r in v: r.get(...)`: the elements of `v` as dictionaries. A list
      yields its elements; a dict or string yields its keys or characters,
      which have no `.get` (so only an empty one gets through); a number,
      boolean or `None` is not iterable. */
  function Dicts(v: Json): (r: Result<seq<Dict>>)
    ensures v.JArr? ==> (r.Ok? <==> forall k | 0 <= k < |v.items| :: v.items[k].JObj?)
    ensures v.JArr? && r.Ok? ==> |r.value| == |v.items| && forall k | 0 <= k < |v.items| :: v.items[k] == JObj(r.value[k])
    ensures v.JObj? ==> r == (if v.fields == map[] then Ok([]) else Err(AttributeError))
    ensures v.JStr? ==> r == (if v.s == [] then Ok([]) else Err(AttributeError))
    ensures (v.JNull? || v.JNum? || v.JBool?) ==> r == Err(TypeError)
  {
    match v
    case JArr(xs) =>
      if forall k | 0 <= k < |xs| :: xs[k].JObj? then
        Ok(seq(|xs|, k requires 0 <= k < |xs| => xs[k].fields))
      else Err(AttributeError)
    case JObj(m) => if m == map[] then Ok([]) else Err(AttributeError)
    case JStr(s) => if s == [] then Ok([]) else Err(AttributeError)
    case _ => Err(TypeError)
  }

  /* ---------------------------------------------------------------------------
     Grouped readings: `{"readings": [{"entity_id": .., "data": [..]}, ..]}`
     ------------------------------------------------------------------------- */

  /** The flat record built for one data point of a group. */
  function PointRecord(entityId: Json, point: Dict): (rec: Dict)
    ensures rec.Keys == {"artifact", "kind", "uom", "val", "ts"}
    ensures rec["artifact"] == entityId
    ensures rec["kind"] == Get(point, "kind") && rec["uom"] == Get(point, "unit")
    ensures rec["val"] == Get(point, "value") && rec["ts"] == Get(point, "time")
  {
    map["artifact" := entityId, "kind" := Get(point, "kind"), "uom" := Get(point, "unit"),
        "val" := Get(point, "value"), "ts" := Get(point, "time")]
  }

  /** `entry.get("data", [])`: a missing `data` key is an empty list. */
  function DataOf(entry: Dict): Json {
    if "data" in entry then entry["data"] else JArr([])
  }

  /** The records of one group: its data points, each tagged with the
      group's `entity_id`. */
  function GroupRecords(entry: Json): (r: Result<seq<Dict>>)
    ensures !entry.JObj? ==> r == Err(AttributeError)
    ensures entry.JObj? ==> (r.Ok? <==> Dicts(DataOf(entry.fields)).Ok?)
    ensures r.Ok? ==>
              var points := Dicts(DataOf(entry.fields)).value;
              && |r.value| == |points|
              && forall k | 0 <= k < |points| :: r.value[k] == PointRecord(Get(entry.fields, "entity_id"), points[k])
  {
    match entry
    case JObj(m) =>
      var points :- Dicts(DataOf(m));
      var entityId := Get(m, "entity_id");
      Ok(seq(|points|, k requires 0 <= k < |points| => PointRecord(entityId, points[k])))
    case _ => Err(AttributeError)
  }

  /** Number of data points of a group, 0 for a malformed one. */
  function GroupSize(entry: Json): nat {
    if entry.JObj? && Dicts(DataOf(entry.fields)).Ok? then |Dicts(DataOf(entry.fields)).value| else 0
  }

  /** Number of data points of the groups that are well formed. */
  function PointCount(entries: seq<Json>): nat {
    if entries == [] then 0 else GroupSize(entries[0]) + PointCount(entries[1..])
  }

  /** The groups before the `k`-th are the first and the tail's groups
      before its `k - 1`-th. */
  lemma PointCountPrefix(entries: seq<Json>, k: nat)
    requires 0 < k <= |entries|
    ensures PointCount(entries[..k]) == GroupSize(entries[0]) + PointCount(entries[1..][..k - 1])
  {
    assert entries[..k][0] == entries[0];
    assert entries[..k][1..] == entries[1..][..k - 1];
  }

  /** The loop over `obj["readings"]`: the groups' records, group after
      group; the first malformed group raises. */
  function Flatten(entries: seq<Json>): (r: Result<seq<Dict>>)
    ensures r.Ok? <==> forall k | 0 <= k < |entries| :: GroupRecords(entries[k]).Ok?
    ensures r.Ok? ==> |r.value| == PointCount(entries)
  {
    if entries == [] then Ok([])
    else
      var here :- GroupRecords(entries[0]);
      var rest :- Flatten(entries[1..]);
      assert forall k | 1 <= k < |entries| :: entries[k] == entries[1..][k - 1];
      Ok(here + rest)
  }

  /** `rec` carries the `entity_id` of the group `entry` as its artifact. */
  predicate TaggedBy(rec: Dict, entry: Json) {
    entry.JObj? && "artifact" in rec && rec["artifact"] == Get(entry.fields, "entity_id")
  }

  lemma GroupRecordsTagged(entry: Json)
    requires GroupRecords(entry).Ok?
    ensures forall n | 0 <= n < |GroupRecords(entry).value| :: TaggedBy(GroupRecords(entry).value[n], entry)
  {
  }

  lemma FlattenCons(entries: seq<Json>)
    requires entries != [] && Flatten(entries).Ok?
    ensures GroupRecords(entries[0]).Ok? && Flatten(entries[1..]).Ok?
    ensures Flatten(entries).value == GroupRecords(entries[0]).value + Flatten(entries[1..]).value
  {
  }

  lemma TaggedAppend(here: seq<Dict>, rest: seq<Dict>, entries: seq<Json>)
    requires entries != []
    requires forall n | 0 <= n < |here| :: TaggedBy(here[n], entries[0])
    requires forall n | 0 <= n < |rest| :: exists k | 0 <= k < |entries| - 1 :: TaggedBy(rest[n], entries[1..][k])
    ensures forall n | 0 <= n < |here + rest| :: exists k | 0 <= k < |entries| :: TaggedBy((here + rest)[n], entries[k])
  {
    forall n | 0 <= n < |here + rest|
      ensures exists k | 0 <= k < |entries| :: TaggedBy((here + rest)[n], entries[k])
    {
      var x := (here + rest)[n];
      if n < |here| {
        assert x == here[n];
        assert TaggedBy(x, entries[0]);
      } else {
        assert x == rest[n - |here|];
        var k :| 0 <= k < |entries| - 1 && TaggedBy(rest[n - |here|], entries[1..][k]);
        assert entries[k + 1] == entries[1..][k];
        assert TaggedBy(x, entries[k + 1]);
      }
    }
  }

  /** Record `p` of group `k` sits in `recs` right after the records of the
      groups before it. */
  predicate RecordAt(entries: seq<Json>, recs: seq<Dict>, k: nat, p: nat)
    requires k < |entries| && GroupRecords(entries[k]).Ok? && p < |GroupRecords(entries[k]).value|
  {
    PointCount(entries[..k]) + p < |recs| && recs[PointCount(entries[..k]) + p] == GroupRecords(entries[k]).value[p]
  }

  /** Flattening puts the groups' records one group after another, each
      group's records in their order. */
  lemma {:induction false} FlattenKeepsGroups(entries: seq<Json>)
    requires Flatten(entries).Ok?
    ensures forall k, p | 0 <= k < |entries| && GroupRecords(entries[k]).Ok? && 0 <= p < |GroupRecords(entries[k]).value| ::
              RecordAt(entries, Flatten(entries).value, k, p)
  {
    if entries != [] {
      FlattenCons(entries);
      FlattenKeepsGroups(entries[1..]);
      FlattenStep(entries, GroupRecords(entries[0]).value, Flatten(entries[1..]).value);
    }
  }

  /** Putting the first group's records in front of the tail's keeps every
      group's records at its offset. */
  lemma FlattenStep(entries: seq<Json>, here: seq<Dict>, rest: seq<Dict>)
    requires entries != [] && GroupRecords(entries[0]) == Ok(here)
    requires forall k, p | 0 <= k < |entries[1..]| && GroupRecords(entries[1..][k]).Ok?
                           && 0 <= p < |GroupRecords(entries[1..][k]).value| ::
               RecordAt(entries[1..], rest, k, p)
    ensures forall k, p | 0 <= k < |entries| && GroupRecords(entries[k]).Ok? && 0 <= p < |GroupRecords(entries[k]).value| ::
              RecordAt(entries, here + rest, k, p)
  {
    var tail := entries[1..];
    forall k, p | 0 <= k < |entries| && GroupRecords(entries[k]).Ok? && 0 <= p < |GroupRecords(entries[k]).value|
      ensures RecordAt(entries, here + rest, k, p)
    {
      if k == 0 {
        RecordAtHead(entries, here, rest, p);
      } else {
        assert entries[k] == tail[k - 1];
        assert RecordAt(tail, rest, k - 1, p);
        RecordAtStep(entries, here, rest, k, p);
      }
    }
  }

  lemma RecordAtHead(entries: seq<Json>, here: seq<Dict>, rest: seq<Dict>, p: nat)
    requires entries != [] && GroupRecords(entries[0]) == Ok(here) && p < |here|
    ensures RecordAt(entries, here + rest, 0, p)
  {
    assert entries[..0] == [];
  }

  lemma RecordAtStep(entries: seq<Json>, here: seq<Dict>, rest: seq<Dict>, k: nat, p: nat)
    requires 0 < k < |entries| && GroupRecords(entries[0]) == Ok(here)
    requires GroupRecords(entries[k]).Ok? && p < |GroupRecords(entries[k]).value|
    requires RecordAt(entries[1..], rest, k - 1, p)
    ensures RecordAt(entries, here + rest, k, p)
  {
    PointCountPrefix(entries, k);
    GroupSizeOfRecords(entries[0]);
    var j := PointCount(entries[1..][..k - 1]) + p;
    assert (here + rest)[|here| + j] == rest[j];
  }

  lemma GroupSizeOfRecords(entry: Json)
    requires GroupRecords(entry).Ok?
    ensures |GroupRecords(entry).value| == GroupSize(entry)
  {
  }

  /** Every flattened record is tagged with the `entity_id` of a group, and
      the records at each group's offset are that group's own, tagged with
      its own `entity_id`. */
  lemma FlattenTagsEveryRecord(entries: seq<Json>)
    requires Flatten(entries).Ok?
    ensures forall n | 0 <= n < |Flatten(entries).value| ::
              exists k | 0 <= k < |entries| :: TaggedBy(Flatten(entries).value[n], entries[k])
    ensures forall k, p | 0 <= k < |entries| && GroupRecords(entries[k]).Ok? && 0 <= p < |GroupRecords(entries[k]).value| ::
              RecordAt(entries, Flatten(entries).value, k, p) && TaggedBy(GroupRecords(entries[k]).value[p], entries[k])
  {
    FlattenTaggedBySome(entries);
    FlattenKeepsGroups(entries);
    forall k | 0 <= k < |entries| && GroupRecords(entries[k]).Ok?
      ensures forall p | 0 <= p < |GroupRecords(entries[k]).value| :: TaggedBy(GroupRecords(entries[k]).value[p], entries[k])
    {
      GroupRecordsTagged(entries[k]);
    }
  }

  lemma {:induction false} FlattenTaggedBySome(entries: seq<Json>)
    requires Flatten(entries).Ok?
    ensures forall n | 0 <= n < |Flatten(entries).value| ::
              exists k | 0 <= k < |entries| :: TaggedBy(Flatten(entries).value[n], entries[k])
  {
    if entries != [] {
      FlattenCons(entries);
      GroupRecordsTagged(entries[0]);
      FlattenTaggedBySome(entries[1..]);
      TaggedAppend(GroupRecords(entries[0]).value, Flatten(entries[1..]).value, entries);
    }
  }

  lemma GroupWithoutDataIsEmpty(m: Dict)
    requires "data" !in m
    ensures GroupRecords(JObj(m)) == Ok([])
  {
  }

  /* ---------------------------------------------------------------------------
     Document shape
     ------------------------------------------------------------------------- */

  /** The records of a parsed document, by the loader's precedence:
      an object whose `readings` is a list is flattened; otherwise a dict's
      `records`; otherwise a top-level list; otherwise the single value.
      Asking `"readings" in v` of a number, boolean or `None` raises, and so
      does indexing a list or string with `"readings"` when the test passes. */
  function Records(doc: Json): (r: Result<seq<Dict>>)
    ensures doc.JObj? && "readings" in doc.fields && doc.fields["readings"].JArr? ==>
              r == Flatten(doc.fields["readings"].items)
    ensures doc.JObj? && !("readings" in doc.fields && doc.fields["readings"].JArr?) && "records" in doc.fields ==>
              r == Dicts(doc.fields["records"])
    ensures doc.JObj? && !("readings" in doc.fields && doc.fields["readings"].JArr?) && "records" !in doc.fields ==>
              r == Ok([doc.fields])
    ensures doc.JArr? ==> r == (if JStr("readings") in doc.items then Err(TypeError) else Dicts(doc))
    ensures doc.JStr? ==> r == (if Contains(doc.s, "readings") then Err(TypeError) else Err(AttributeError))
    ensures (doc.JNull? || doc.JNum? || doc.JBool?) ==> r == Err(TypeError)
  {
    match doc
    case JObj(m) =>
      if "readings" in m && m["readings"].JArr? then Flatten(m["readings"].items)
      else if "records" in m then Dicts(m["records"])
      else Ok([m])
    case JArr(xs) => if JStr("readings") in xs then Err(TypeError) else Dicts(doc)
    case JStr(s) => if Contains(s, "readings") then Err(TypeError) else Err(AttributeError)
    case _ => Err(TypeError)
  }

  /** `line.strip()` is truthy. */
  predicate HasText(line: string) {
    Strip(line) != []
  }

  /** `r` is `s` with some elements left out and the rest in their order:
      matching the head of `r` against the earliest equal element of `s`
      loses nothing. */
  predicate SubsequenceOf(r: seq<string>, s: seq<string>)
    decreases |s|
  {
    if r == [] then true
    else if s == [] then false
    else if r[0] == s[0] then SubsequenceOf(r[1..], s[1..])
    else SubsequenceOf(r, s[1..])
  }

  /** The non-blank lines of the text, in order: each non-blank line as often
      as it occurs, and no blank one. */
  function NonBlankLines(lines: seq<string>): (r: seq<string>)
    ensures forall n | 0 <= n < |r| :: HasText(r[n]) && r[n] in lines
    ensures forall n | 0 <= n < |lines| && HasText(lines[n]) :: lines[n] in r
    ensures forall x :: multiset(r)[x] == if HasText(x) then multiset(lines)[x] else 0
    ensures SubsequenceOf(r, lines)
  {
    if lines == [] then []
    else
      var rest := NonBlankLines(lines[1..]);
      var r := (if HasText(lines[0]) then [lines[0]] else []) + rest;
      FilterCons(lines, rest, r, HasText);
      r
  }

  /** One step of a filter: keeping or dropping the head of `lines` in front
      of the filtered tail keeps exactly the elements that pass, as often as
      they occur and in their order. */
  lemma FilterCons(lines: seq<string>, rest: seq<string>, r: seq<string>, keep: string -> bool)
    requires lines != []
    requires forall n | 0 <= n < |rest| :: keep(rest[n]) && rest[n] in lines[1..]
    requires forall n | 0 <= n < |lines[1..]| && keep(lines[1..][n]) :: lines[1..][n] in rest
    requires forall x :: multiset(rest)[x] == if keep(x) then multiset(lines[1..])[x] else 0
    requires SubsequenceOf(rest, lines[1..])
    requires r == (if keep(lines[0]) then [lines[0]] else []) + rest
    ensures forall n | 0 <= n < |r| :: keep(r[n]) && r[n] in lines
    ensures forall n | 0 <= n < |lines| && keep(lines[n]) :: lines[n] in r
    ensures forall x :: multiset(r)[x] == if keep(x) then multiset(lines)[x] else 0
    ensures SubsequenceOf(r, lines)
  {
    FilterConsMembers(lines, rest, r, keep);
    FilterConsCounts(lines, rest, r, keep);
    FilterConsOrder(lines, rest, r, keep);
  }

  lemma FilterConsMembers(lines: seq<string>, rest: seq<string>, r: seq<string>, keep: string -> bool)
    requires lines != []
    requires forall n | 0 <= n < |rest| :: keep(rest[n]) && rest[n] in lines[1..]
    requires forall n | 0 <= n < |lines[1..]| && keep(lines[1..][n]) :: lines[1..][n] in rest
    requires r == (if keep(lines[0]) then [lines[0]] else []) + rest
    ensures forall n | 0 <= n < |r| :: keep(r[n]) && r[n] in lines
    ensures forall n | 0 <= n < |lines| && keep(lines[n]) :: lines[n] in r
  {
    forall n | 0 <= n < |r| ensures keep(r[n]) && r[n] in lines {
      if keep(lines[0]) && n == 0 {
        assert r[n] == lines[0];
      } else {
        var m := if keep(lines[0]) then n - 1 else n;
        assert r[n] == rest[m];
      }
    }
    forall n | 0 <= n < |lines| && keep(lines[n]) ensures lines[n] in r {
      if n > 0 {
        assert lines[n] == lines[1..][n - 1];
      }
    }
  }

  lemma FilterConsCounts(lines: seq<string>, rest: seq<string>, r: seq<string>, keep: string -> bool)
    requires lines != []
    requires forall x :: multiset(rest)[x] == if keep(x) then multiset(lines[1..])[x] else 0
    requires r == (if keep(lines[0]) then [lines[0]] else []) + rest
    ensures forall x :: multiset(r)[x] == if keep(x) then multiset(lines)[x] else 0
  {
    assert lines == [lines[0]] + lines[1..];
    assert multiset(lines) == multiset{lines[0]} + multiset(lines[1..]);
    assert multiset(r) == (if keep(lines[0]) then multiset{lines[0]} else multiset{}) + multiset(rest);
  }

  lemma FilterConsOrder(lines: seq<string>, rest: seq<string>, r: seq<string>, keep: string -> bool)
    requires lines != []
    requires forall n | 0 <= n < |rest| :: keep(rest[n])
    requires SubsequenceOf(rest, lines[1..])
    requires r == (if keep(lines[0]) then [lines[0]] else []) + rest
    ensures SubsequenceOf(r, lines)
  {
    if keep(lines[0]) {
      assert r[0] == lines[0] && r[1..] == rest;
    } else {
      assert r == rest;
      if rest != [] {
        assert keep(rest[0]);
        assert rest[0] != lines[0];
      }
    }
  }

  /** `[json.loads(line) for line in lines]`: the first line that is not JSON
      raises. */
  function ParseLines(lines: seq<string>, lib: Library): (r: Result<seq<Json>>)
    ensures r.Ok? <==> forall n | 0 <= n < |lines| :: lib.parseJson(lines[n]).Some?
    ensures r.Ok? ==> |r.value| == |lines| && forall n | 0 <= n < |lines| :: Some(r.value[n]) == lib.parseJson(lines[n])
    ensures r.Err? ==> exists n | 0 <= n < |lines| :: lib.parseJson(lines[n]) == None && r.error == DecodeError(lines[n])
                                                      && forall p | 0 <= p < n :: lib.parseJson(lines[p]).Some?
  {
    if lines == [] then Ok([])
    else
      match lib.parseJson(lines[0])
      case None => Err(DecodeError(lines[0]))
      case Some(doc) =>
        assert forall n | 1 <= n < |lines| :: lines[n] == lines[1..][n - 1];
        match ParseLines(lines[1..], lib)
        case Err(e) =>
          assert exists n | 1 <= n < |lines| :: lib.parseJson(lines[n]) == None && e == DecodeError(lines[n])
                                              && forall p | 0 <= p < n :: lib.parseJson(lines[p]).Some? by {
            var n :| 0 <= n < |lines| - 1 && lib.parseJson(lines[1..][n]) == None && e == DecodeError(lines[1..][n])
                     && forall p | 0 <= p < n :: lib.parseJson(lines[1..][p]).Some?;
            assert forall p | 0 <= p < n + 1 :: lib.parseJson(lines[p]).Some? by {
              forall p | 0 <= p < n + 1 ensures lib.parseJson(lines[p]).Some? {
                if p > 0 {
                  assert lines[p] == lines[1..][p - 1];
                }
              }
            }
          }
          Err(e)
        case Ok(rest) => Ok([doc] + rest)
  }

  /** `json.loads(line)` gives an object. */
  predicate IsObjectLine(line: string, lib: Library) {
    lib.parseJson(line).Some? && lib.parseJson(line).value.JObj?
  }

  /** What reading `lines` as NDJSON gives: the records iff every line is a
      JSON object, one record per line and in order; otherwise a
      `DecodeError` naming the first line that is not JSON, or, when every
      line is JSON, the `AttributeError` of calling `.get` on a document that
      is not an object. */
  predicate NdjsonOutcome(lines: seq<string>, lib: Library, r: Result<seq<Dict>>) {
    && (r.Ok? <==> forall n | 0 <= n < |lines| :: IsObjectLine(lines[n], lib))
    && (r.Ok? ==> |r.value| == |lines| && forall n | 0 <= n < |lines| :: lib.parseJson(lines[n]) == Some(JObj(r.value[n])))
    && (r.Err? && (forall n | 0 <= n < |lines| :: lib.parseJson(lines[n]).Some?) ==> r.error == AttributeError)
    && (r.Err? && !(forall n | 0 <= n < |lines| :: lib.parseJson(lines[n]).Some?) ==>
          exists n | 0 <= n < |lines| :: lib.parseJson(lines[n]) == None && r.error == DecodeError(lines[n])
                                         && forall p | 0 <= p < n :: lib.parseJson(lines[p]).Some?)
  }

  /** `[json.loads(line) for line in lines]` followed by `.get` on every
      document. */
  function LinesRecords(lines: seq<string>, lib: Library): (r: Result<seq<Dict>>)
    ensures NdjsonOutcome(lines, lib, r)
  {
    match ParseLines(lines, lib)
    case Err(e) => Err(e)
    case Ok(docs) =>
      assert forall n | 0 <= n < |lines| :: lib.parseJson(lines[n]) == Some(docs[n]);
      Dicts(JArr(docs))
  }

  /** The lines an NDJSON file is read as: the non-blank lines of the
      stripped text. */
  function NdjsonLines(text: string): seq<string> {
    NonBlankLines(SplitLines(Strip(text)))
  }

  /** The records of the file: the whole stripped text as one JSON document;
      when it is not JSON, one object per non-blank line, in order. */
  function FileRecords(text: string, lib: Library): (r: Result<seq<Dict>>)
    ensures lib.parseJson(Strip(text)).Some? ==> r == Records(lib.parseJson(Strip(text)).value)
    ensures lib.parseJson(Strip(text)).None? ==> NdjsonOutcome(NdjsonLines(text), lib, r)
  {
    match lib.parseJson(Strip(text))
    case Some(doc) => Records(doc)
    case None => LinesRecords(NdjsonLines(text), lib)
  }

  /* ---------------------------------------------------------------------------
     Alias resolution and the frame
     ------------------------------------------------------------------------- */

  const ArtifactAliases: seq<string> := ["artifact", "asset", "entity_id"]
  const KindAliases: seq<string> := ["kind", "measure_type", "sdc_kind"]
  const UnitAliases: seq<string> := ["uom", "unit", "unit_label"]
  const ValueAliases: seq<string> := ["val", "reading", "value"]
  const TimestampAliases: seq<string> := ["ts", "time", "timestamp"]

  /** `r.get(a0) or r.get(a1) or r.get(a2)`. */
  function Resolve(r: Dict, aliases: seq<string>): (v: Json)
    requires |aliases| > 0
    ensures Truthy(v) ==>
              exists n | 0 <= n < |aliases| ::
                v == Get(r, aliases[n]) && forall p | 0 <= p < n :: !Truthy(Get(r, aliases[p]))
    ensures !Truthy(v) ==>
              v == Get(r, aliases[|aliases| - 1]) && forall p | 0 <= p < |aliases| :: !Truthy(Get(r, aliases[p]))
  {
    var vs := seq(|aliases|, n requires 0 <= n < |aliases| => Get(r, aliases[n]));
    var k := FirstTruthy(vs);
    assert forall p | 0 <= p < k :: !Truthy(vs[..k][p]);
    assert forall p | 0 <= p < k :: !Truthy(Get(r, aliases[p])) by {
      forall p | 0 <= p < k ensures !Truthy(Get(r, aliases[p])) {
        assert vs[..k][p] == vs[p];
      }
    }
    OrChain(vs)
  }

  /** The alias keys a canonical column is read from, in the order tried. */
  function Aliases(f: Field): (keys: seq<string>)
    ensures |keys| == 3
  {
    match f
    case ArtifactId => ArtifactAliases
    case SdcKind => KindAliases
    case UnitLabel => UnitAliases
    case Value => ValueAliases
    case Timestamp => TimestampAliases
  }

  /** One row of the frame built from a record. */
  function RecordRow(r: Dict): RawRow {
    RawRow(Py(Resolve(r, ArtifactAliases)), Py(Resolve(r, KindAliases)), Py(Resolve(r, UnitAliases)),
           Py(Resolve(r, ValueAliases)), Py(Resolve(r, TimestampAliases)))
  }

  /** `load_sensor_b`: the frame of one row per record. A frame built from no
      records has no columns at all. */
  function LoadJson(text: string, lib: Library): (r: Result<Frame>)
    ensures r.Ok? <==> FileRecords(text, lib).Ok?
    ensures r.Ok? ==>
              var recs := FileRecords(text, lib).value;
              && |r.value.rows| == |recs|
              && (r.value.columns == if recs == [] then {} else AllFields)
              && forall n, f | 0 <= n < |recs| :: FieldCell(r.value.rows[n], f) == Py(Resolve(recs[n], Aliases(f)))
  {
    var recs :- FileRecords(text, lib);
    Ok(Frame(if recs == [] then {} else AllFields, RecordRows(recs)))
  }

  function RecordRows(recs: seq<Dict>): (rows: seq<RawRow>)
    ensures |rows| == |recs|
    ensures forall n, f | 0 <= n < |recs| :: FieldCell(rows[n], f) == Py(Resolve(recs[n], Aliases(f)))
  {
    seq(|recs|, n requires 0 <= n < |recs| => RecordRow(recs[n]))
  }

  /* ---------------------------------------------------------------------------
     Consequences of the precedence and of truthiness
     ------------------------------------------------------------------------- */

  /** A reading of `0` under `val` with no `reading` or `value` key resolves
      to `None`: truthiness skips the zero. */
  lemma ZeroValueBecomesNone(r: Dict)
    requires "val" in r && r["val"] == JNum(0.0)
    requires "reading" !in r && "value" !in r
    ensures Resolve(r, ValueAliases) == JNull
  {
    assert Get(r, ValueAliases[0]) == JNum(0.0);
  }

  /** A falsy first alias does not hide a truthy later one. */
  lemma LaterAliasWins(r: Dict)
    requires "ts" in r && r["ts"] == JStr("")
    requires "time" in r && r["time"] == JStr("2024-01-01")
    ensures Resolve(r, TimestampAliases) == JStr("2024-01-01")
  {
    assert Get(r, TimestampAliases[0]) == JStr("");
    assert Get(r, TimestampAliases[1]) == JStr("2024-01-01");
    assert Truthy(JStr("2024-01-01"));
  }

  /** A document with both a `readings` list and `records` is read as grouped
      readings: `records` is ignored. */
  lemma ReadingsTakePrecedence(m: Dict, groups: seq<Json>)
    requires "readings" in m && m["readings"] == JArr(groups)
    ensures Records(JObj(m)) == Flatten(groups)
  {
  }

  /** A `readings` key that is not a list falls through to the next shape. */
  lemma ReadingsMustBeAList(m: Dict)
    requires "readings" in m && !m["readings"].JArr?
    requires "records" !in m
    ensures Records(JObj(m)) == Ok([m])
  {
  }
}
