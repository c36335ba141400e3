# Sensor readings to a measurement graph, in Dafny

This project models the core of the sensor-readings pipeline in Dafny and
proves properties of that model. There are two parts.

**Normaliser (`normalize_readings.py`).**
- It loads two CSV sensors (A and C) and one JSON sensor (B). B may be grouped readings, a flat list, a single object, or newline-delimited JSON.
- It combines the three frames into one.
- It cleans every field: strips whitespace, looks units and kinds up in synonym maps by lower case, and hyphenates artifact ids. It rewrites each timestamp to ISO-8601 UTC ending in `Z`.
- It drops rows without a value or timestamp and sorts the rest by (artifact id, timestamp).

**Graph emitter (`measure_rdflib.py`).**
- It slugs each field into URI-safe text.
- It names an artifact, a quality, a measurement and a unit node per row.
- It adds nine triples per row to a graph that is a set of triples.

Modules, leaf first:

| file | module | contents |
|---|---|---|
| `common.dfy` | `Common` | `Option`, `Result`, and the Python errors the loaders can raise |
| `text.dfy` | `Text` | `strip`, `lower`, the space-to-hyphen rewrite, `splitlines`, the `+00:00` to `Z` rewrite, code-point string order, decimal rendering |
| `json_data.dfy` | `JsonData` | parsed JSON values, `dict.get`, Python truthiness, `a or b or c` |
| `foreign.dfy` | `Foreign` | the library calls the code makes, as function-valued parameters |
| `frames.dfy` | `Frames` | cells (`NaN` or a value), canonical columns, frames, `pd.concat`, `str(x)` |
| `tabular.dfy` | `Tabular` | `load_sensor_a`: missing-value markers, renaming, column selection |
| `sensor_json.dfy` | `SensorJson` | `load_sensor_b`: shape precedence, flattening, NDJSON fallback, alias chains |
| `timestamps.dfy` | `Timestamps` | `to_iso8601` |
| `synonyms.dfy` | `Synonyms` | `UNIT_MAP`, `KIND_MAP`, artifact-id cleaning |
| `cleaning.dfy` | `Cleaning` | `normalize_and_clean` and the script that feeds it |
| `slug.dfy` | `Slugs` | `clean` of the graph emitter |
| `graph.dfy` | `Graph` | node names, the triples of a row, the emission loop, node and edge facts |
| `sample_graph.dfy` | `SampleGraph` | the seven-row table embedded in the emitter, and its node counts |

The library calls are parameters of the `Foreign.Library` record:
- `json.loads`, as a partial function from text to `Json`;
- the `repr` pandas uses for numbers and nested values;
- `pd.to_numeric`;
- `dateutil` parsing;
- UTC conversion followed by `isoformat`, which can fail (a time whose UTC equivalent leaves years 1 to 9999).

The model decides when each call is made and what is done with its result. It does not say what the call computes.

All source paths below are under `projects/project-4/assignment/src/scripts/`.

## Model

| member | source | states |
|---|---|---|
| `Tabular.ReadCell` | projects/project-4/assignment/src/scripts/normalize_readings.py:22-22 | A cell is missing exactly when its text is `""`, `"NA"` or `"NaN"`; any other text is kept verbatim as a string. |
| `Tabular.OnlyThreeMarkersAreMissing` | projects/project-4/assignment/src/scripts/normalize_readings.py:22-22 | `"N/A"` and `"nan"` stay text, while `""`, `"NA"` and `"NaN"` become missing. |
| `Tabular.ClassifyRecognisesColumnNames` | projects/project-4/assignment/src/scripts/normalize_readings.py:25-31 | A header names a canonical column exactly when, after the rename table, it equals that column's name, so `asset_id` and `artifact_id` both name the artifact column. |
| `Tabular.LoadTabular` | projects/project-4/assignment/src/scripts/normalize_readings.py:20-36 | The kept columns are in canonical order. A canonical column is kept iff some header names it. Every cell of a kept column is read from the CSV cell under that header, row by row, with no row lost. |
| `Tabular.TableFrame` | projects/project-4/assignment/src/scripts/normalize_readings.py:160-160 | A loaded table becomes a frame with the same columns and one row per table row. In every row, a column the table lacks is `NaN`, and a column it has holds the table's cell under that column. |
| `Frames.ConcatFrames` | projects/project-4/assignment/src/scripts/normalize_readings.py:160-160 | The combined frame has a column iff some input frame has it, and exactly as many rows as the inputs together. Row `i` of input frame `k` is row `i` of the combined frame offset by the rows of the frames before `k`, so the inputs' rows follow one another in order. |
| `Frames.ConcatThreeRows` | projects/project-4/assignment/src/scripts/normalize_readings.py:160-160 | Combining A, B and C gives A's rows, then B's, then C's. |
| `Frames.Str` | projects/project-4/assignment/src/scripts/normalize_readings.py:106-106 | `astype(str)` of a missing cell is `"nan"`, of `None` is `"None"`, and of a string is the string itself. |
| `JsonData.Get` | projects/project-4/assignment/src/scripts/normalize_readings.py:72-76 | `r.get(key)` of an absent key is `None`, the same as an explicit `null`. |
| `JsonData.OrChain` | projects/project-4/assignment/src/scripts/normalize_readings.py:72-76 | `a or b or c` is the first truthy operand, or the last operand when none is truthy; the result is truthy iff some operand is. |
| `SensorJson.Dicts` | projects/project-4/assignment/src/scripts/normalize_readings.py:71-77 | Iterating the records and calling `.get` succeeds on a list only if every element is an object. An empty dict or string yields no rows, a non-empty one raises `AttributeError`, and a number, boolean or `None` raises `TypeError`. |
| `SensorJson.Flatten` | projects/project-4/assignment/src/scripts/normalize_readings.py:47-58 | Flattening the `readings` groups succeeds iff every group does, and yields one record per data point of every group. |
| `SensorJson.FlattenKeepsGroups` | projects/project-4/assignment/src/scripts/normalize_readings.py:48-58 | Point `p` of group `k` is the flattened record right after the records of all earlier groups, so groups keep their order and each group's points keep theirs. |
| `SensorJson.FlattenTagsEveryRecord` | projects/project-4/assignment/src/scripts/normalize_readings.py:49-53 | The record at each group's offset is that group's own record and carries that group's `entity_id` as its `artifact`. Every flattened record carries some group's `entity_id`. |
| `SensorJson.GroupWithoutDataIsEmpty` | projects/project-4/assignment/src/scripts/normalize_readings.py:51-51 | A group without `data` contributes no records. |
| `SensorJson.Records` | projects/project-4/assignment/src/scripts/normalize_readings.py:47-65 | Shapes are tried in order: an object whose `readings` is a list is flattened; otherwise an object's `records`; otherwise a top-level list; otherwise the single value. Each error of the membership test and indexing is modelled. |
| `SensorJson.ReadingsTakePrecedence` | projects/project-4/assignment/src/scripts/normalize_readings.py:47-61 | When both a `readings` list and `records` are present, `records` is ignored. |
| `SensorJson.ReadingsMustBeAList` | projects/project-4/assignment/src/scripts/normalize_readings.py:47-65 | A `readings` key that is not a list, with no `records`, makes the whole object one record. |
| `SensorJson.NonBlankLines` | projects/project-4/assignment/src/scripts/normalize_readings.py:69-69 | Exactly the lines with non-blank stripped text are kept. Each is kept as often as it occurs in the input, and the kept lines are in input order (a subsequence of the input). |
| `SensorJson.ParseLines` | projects/project-4/assignment/src/scripts/normalize_readings.py:69-69 | Parsing succeeds iff every line parses, giving one document per line. Otherwise the error names the first line that does not parse. |
| `SensorJson.LinesRecords` | projects/project-4/assignment/src/scripts/normalize_readings.py:69-77 | Reading lines as NDJSON succeeds iff every line is a JSON object. Then there is one record per line, in order, and record `n` is line `n`'s object. Otherwise the error is a `DecodeError` naming the first line that is not JSON, or, when all lines are JSON, the `AttributeError` of `.get` on a non-object. |
| `SensorJson.FileRecords` | projects/project-4/assignment/src/scripts/normalize_readings.py:41-77 | When the stripped text parses, its records are read from the document's shape. Otherwise the NDJSON outcome holds for the non-blank lines of the stripped text: success iff every such line is a JSON object, with one record per line in order, and the errors above otherwise. |
| `SensorJson.Resolve` | projects/project-4/assignment/src/scripts/normalize_readings.py:72-76 | A field resolves to the first truthy alias value, with every earlier alias falsy. When all are falsy it resolves to the last alias's value. |
| `SensorJson.ZeroValueBecomesNone` | projects/project-4/assignment/src/scripts/normalize_readings.py:75-75 | A reading of `0` under `val`, with no other value key, resolves to `None`. |
| `SensorJson.LaterAliasWins` | projects/project-4/assignment/src/scripts/normalize_readings.py:76-76 | An empty `ts` does not hide a present `time`. |
| `SensorJson.LoadJson` | projects/project-4/assignment/src/scripts/normalize_readings.py:39-79 | Loading fails iff reading the records fails. Otherwise there is one row per record. The frame has all five columns, or none when there are no records. The cell of column `f` in row `n` is pandas' form of the value record `n` resolves to under `f`'s three aliases. |
| `Text.Strip` | projects/project-4/assignment/src/scripts/normalize_readings.py:106-106 | The result is an infix of the input with whitespace-only text cut from each end, and neither of its ends is whitespace. |
| `Text.StripIdempotent` | projects/project-4/assignment/src/scripts/normalize_readings.py:106-106 | Stripping twice is stripping once. |
| `Text.SplitLinesLosesOnlyBreaks` | projects/project-4/assignment/src/scripts/normalize_readings.py:69-69 | The lines `splitlines` returns, joined, are the text with exactly its line-break characters removed. |
| `Text.SplitHead` | projects/project-4/assignment/src/scripts/normalize_readings.py:69-69 | In any split of a text into break-free lines and terminators, the first line runs up to the first line break. Its terminator is `\r\n` when that break is a `\r` followed by `\n`, otherwise the break alone, and nothing when the text has no break. |
| `Text.SplitLinesSplits` | projects/project-4/assignment/src/scripts/normalize_readings.py:69-69 | The lines `splitlines` returns, each followed by its terminator, rebuild the text. Every terminator is `\r\n` or a single line break, a lone `\r` is never followed by `\n`, and only a non-empty last line goes unterminated. |
| `Text.SplitsAsUnique` | projects/project-4/assignment/src/scripts/normalize_readings.py:69-69 | A text has only one such split. |
| `Text.SplitLinesRebuildsText` | projects/project-4/assignment/src/scripts/normalize_readings.py:69-69 | `splitlines` is the unique split: its lines rebuild the text with their terminators, and any break-free lines that do are its lines. |
| `Text.LowerIdempotent` | projects/project-4/assignment/src/scripts/normalize_readings.py:124-124 | Lower-casing twice is lower-casing once. |
| `Text.Hyphenate` | projects/project-4/assignment/src/scripts/normalize_readings.py:138-138 | Same length, no ASCII space left, every space becomes `-`, and every other character is unchanged. |
| `Text.ZSuffix` | projects/project-4/assignment/src/scripts/normalize_readings.py:94-96 | The rewritten text ends in `Z` and contains no `+00:00`. |
| `Text.OffsetToZRemovesAll` | projects/project-4/assignment/src/scripts/normalize_readings.py:94-94 | After replacing `+00:00` with `Z` no `+00:00` remains, including one that could form across a replacement. |
| `Text.UtcRenderingGetsZ` | projects/project-4/assignment/src/scripts/normalize_readings.py:94-96 | A rendering `<body>+00:00` whose body has no `+` becomes `<body>Z`, with no second `Z` appended. |
| `Text.LexLeTotal` | projects/project-4/assignment/src/scripts/normalize_readings.py:144-144 | Code-point order on strings is total. |
| `Text.LexLeTransitive` | projects/project-4/assignment/src/scripts/normalize_readings.py:144-144 | Code-point order on strings is transitive. |
| `Timestamps.AssumeUtc` | projects/project-4/assignment/src/scripts/normalize_readings.py:90-91 | A naive time gets offset 0 and keeps its wall-clock time; an aware time is unchanged. |
| `Timestamps.ToIso8601` | projects/project-4/assignment/src/scripts/normalize_readings.py:82-99 | There is no result iff the cell is missing, its text strips to nothing, the parser rejects it, or conversion of the parsed time to UTC text fails. A result ends in `Z`, contains no `+00:00`, and is the suffix rewrite of the UTC rendering of the parsed time, taken as UTC when naive. |
| `Timestamps.NaiveIsUtc` | projects/project-4/assignment/src/scripts/normalize_readings.py:90-92 | A naive time converts exactly like the same wall-clock time at UTC. |
| `Timestamps.UtcRenderingEndsInZ` | projects/project-4/assignment/src/scripts/normalize_readings.py:92-97 | The usual UTC rendering `<body>+00:00` comes out as `<body>Z`. |
| `Timestamps.BlankTextHasNoTime` | projects/project-4/assignment/src/scripts/normalize_readings.py:84-85 | Whitespace-only text has no timestamp. |
| `Synonyms.Normalize` | projects/project-4/assignment/src/scripts/normalize_readings.py:124-124 | A mapped lower case gives the map's value; otherwise the text is returned as it was, not lower-cased. |
| `Synonyms.UnitMapValues` | projects/project-4/assignment/src/scripts/normalize_readings.py:115-122 | Every `UNIT_MAP` value is one of the six canonical unit labels. |
| `Synonyms.NormalizeUnitRange` | projects/project-4/assignment/src/scripts/normalize_readings.py:115-124 | A normalised unit is a canonical label or the input unchanged. |
| `Synonyms.NormalizeKindRange` | projects/project-4/assignment/src/scripts/normalize_readings.py:127-135 | A normalised kind is one of the four canonical kinds or the input unchanged. |
| `Synonyms.UnitLabelsAreFixed` | projects/project-4/assignment/src/scripts/normalize_readings.py:115-124 | Each canonical unit label normalises to itself. |
| `Synonyms.KindNamesAreFixed` | projects/project-4/assignment/src/scripts/normalize_readings.py:127-135 | Each canonical kind normalises to itself. |
| `Synonyms.NormalizeUnitIdempotent` | projects/project-4/assignment/src/scripts/normalize_readings.py:124-124 | Normalising a unit twice is normalising it once. |
| `Synonyms.NormalizeKindIdempotent` | projects/project-4/assignment/src/scripts/normalize_readings.py:135-135 | Normalising a kind twice is normalising it once. |
| `Synonyms.CapitalisedUnitKeysAreUnreachable` | projects/project-4/assignment/src/scripts/normalize_readings.py:116-124 | The keys written with capitals (`°C`, `°F`, `KPA`, `kPa`, `V`, `Ω`) are never the lower case of anything, so lookup never reaches them. |
| `Synonyms.KindCaseHandling` | projects/project-4/assignment/src/scripts/normalize_readings.py:135-135 | An unmapped kind keeps its capitals (`Humidity`), while a mapped one matches in any case (`TEMP`). |
| `Synonyms.CleanArtifact` | projects/project-4/assignment/src/scripts/normalize_readings.py:105-138 | A cleaned id contains no ASCII space, has the length of the stripped input, and has no outer whitespace: outer whitespace is removed rather than hyphenated. |
| `Synonyms.CleanArtifactOfPlainText` | projects/project-4/assignment/src/scripts/normalize_readings.py:105-138 | Text without spaces or outer whitespace is already a clean id. |
| `Synonyms.CleanArtifactIdempotent` | projects/project-4/assignment/src/scripts/normalize_readings.py:105-138 | Cleaning an id twice is cleaning it once. |
| `Cleaning.CleanRow` | projects/project-4/assignment/src/scripts/normalize_readings.py:104-138 | A cleaned id has no ASCII space and no outer whitespace. A cleaned kind is canonical or the stripped input, and likewise a cleaned unit. A missing value stays missing. The timestamp is absent exactly when the cell is missing or blank, fails to parse, or fails UTC conversion, and otherwise ends in `Z`. |
| `Cleaning.DropIncomplete` | projects/project-4/assignment/src/scripts/normalize_readings.py:141-141 | Every kept row has a value and a timestamp. Each complete row is kept as often as it occurs, and each incomplete row is dropped. |
| `Cleaning.DropIgnoresTextCells` | projects/project-4/assignment/src/scripts/normalize_readings.py:105-141 | Whether a row is dropped depends only on its value and timestamp cells, because after `astype(str)` the text columns are never missing. |
| `Cleaning.MissingArtifactReadsNan` | projects/project-4/assignment/src/scripts/normalize_readings.py:105-106 | A missing artifact id is cleaned to the text `nan`. |
| `Cleaning.KeyLeTransitive` | projects/project-4/assignment/src/scripts/normalize_readings.py:144-144 | The (artifact id, timestamp) order is transitive. |
| `Cleaning.Insert` | projects/project-4/assignment/src/scripts/normalize_readings.py:144-144 | Inserting into a sorted sequence gives a sorted sequence with one more copy of the row. |
| `Cleaning.SortRows` | projects/project-4/assignment/src/scripts/normalize_readings.py:144-144 | The result is sorted by (artifact id, timestamp) and is a permutation of the input. |
| `Cleaning.FirstMissing` | projects/project-4/assignment/src/scripts/normalize_readings.py:105-112 | No column is reported iff all five are present. A reported column is absent from the frame, and every column read before it is present. |
| `Cleaning.NormalizeAndClean` | projects/project-4/assignment/src/scripts/normalize_readings.py:102-146 | It fails iff a canonical column is absent, with a `KeyError` naming the first one read. Otherwise the output is sorted and complete. Each cleaned input row appears as often as it occurs when complete, and not at all when incomplete. |
| `Cleaning.OutputRowsComeFromInput` | projects/project-4/assignment/src/scripts/normalize_readings.py:102-146 | Every output row is the cleaning of some input row. |
| `Cleaning.NormalizeReadings` | projects/project-4/assignment/src/scripts/normalize_readings.py:149-164 | An error loading B stops the script with that error; otherwise the script cleans A, B and C combined in that order. |
| `Cleaning.CleanThreeFrames` | projects/project-4/assignment/src/scripts/normalize_readings.py:102-164 | Cleaning three combined frames fails iff some canonical column is in none of them, with a `KeyError` for the first such column. Otherwise each complete cleaned row of the three frames' rows is kept as often as it occurs, and no other row is kept. |
| `Cleaning.NormalizeReadingsOutcome` | projects/project-4/assignment/src/scripts/normalize_readings.py:149-164 | Once B has loaded, the script fails iff B has no record and some canonical column is named by neither CSV header, with a `KeyError` for the first such column. On success the rows are in key order and complete, and they are the complete cleaned rows of A, B and C, each as often as it occurs. |
| `Cleaning.NonEmptyJsonSuppliesEveryColumn` | projects/project-4/assignment/src/scripts/normalize_readings.py:71-77 | When B has at least one record, the combined frame has every column and cleaning cannot fail. |
| `Slugs.Slug` | projects/project-4/assignment/src/scripts/measure_rdflib.py:34-35 | The slug has the input's length and contains only `[A-Za-z0-9_.-]`. Safe characters are kept and every other character becomes `_`. |
| `Slugs.SlugIdentityIffSafe` | projects/project-4/assignment/src/scripts/measure_rdflib.py:34-35 | A slug leaves text unchanged iff the text is already safe. |
| `Slugs.SlugIdempotent` | projects/project-4/assignment/src/scripts/measure_rdflib.py:34-35 | Slugging twice is slugging once. |
| `Slugs.SlugMerges` | projects/project-4/assignment/src/scripts/measure_rdflib.py:34-35 | Different texts can share a slug: `Ω`, `?` and `_` all become `_`. |
| `Graph.ArtifactNameInjective` | projects/project-4/assignment/src/scripts/measure_rdflib.py:47-47 | Two artifact nodes are the same iff their ids have the same slug. |
| `Graph.UnitNameInjective` | projects/project-4/assignment/src/scripts/measure_rdflib.py:50-50 | Two unit nodes are the same iff their labels have the same slug. |
| `Graph.QualityNameCollides` | projects/project-4/assignment/src/scripts/measure_rdflib.py:48-48 | Quality naming is not injective: (`A_b`, `c`) and (`A`, `b_c`) name the same node. |
| `Graph.QualityNameInjectiveWithoutUnderscore` | projects/project-4/assignment/src/scripts/measure_rdflib.py:48-48 | When neither artifact slug contains `_`, two quality nodes are the same iff both slugs agree. |
| `Graph.MeasurementNameIndex` | projects/project-4/assignment/src/scripts/measure_rdflib.py:49-49 | The text after the last `_` of a measurement name is the row index in decimal. |
| `Graph.MeasurementNameInjective` | projects/project-4/assignment/src/scripts/measure_rdflib.py:49-49 | Measurement names of different rows differ, whatever their other fields. |
| `Text.NatToStringInjective` | projects/project-4/assignment/src/scripts/measure_rdflib.py:49-49 | Distinct row indices have distinct decimal renderings. |
| `Graph.RowTriplesCount` | projects/project-4/assignment/src/scripts/measure_rdflib.py:52-68 | Every row adds exactly nine distinct triples, whatever its names. |
| `Graph.RowTyping` | projects/project-4/assignment/src/scripts/measure_rdflib.py:52-68 | Within a row, the typing triple for a class exists and types only that class's node. |
| `Graph.BuildMembers` | projects/project-4/assignment/src/scripts/measure_rdflib.py:38-68 | A triple is in the graph iff some row adds it. |
| `Graph.EmitGraph` | projects/project-4/assignment/src/scripts/measure_rdflib.py:38-68 | The emission loop builds exactly the union of the rows' triples. |
| `Graph.RepeatedRowAddsOnlyItsMeasurement` | projects/project-4/assignment/src/scripts/measure_rdflib.py:52-68 | A row whose artifact, kind and unit repeat an earlier row's adds only triples at its own measurement node: re-adding a triple changes nothing. |
| `Graph.TypedNodes` | projects/project-4/assignment/src/scripts/measure_rdflib.py:52-68 | The artifact, quality, measurement and unit nodes of the graph are exactly the names the rows produce, so deduplication is by name alone. |
| `Graph.MeasurementNodesPerRow` | projects/project-4/assignment/src/scripts/measure_rdflib.py:49-61 | There are as many distinct measurement names as rows. |
| `Graph.MeasurementCount` | projects/project-4/assignment/src/scripts/measure_rdflib.py:38-68 | The graph has exactly one measurement node per row. |
| `Graph.MeasurementInEdge` | projects/project-4/assignment/src/scripts/measure_rdflib.py:60-60 | Each measurement node has exactly one incoming `has_measurement` edge, from its row's quality. |
| `Graph.MeasurementOutEdge` | projects/project-4/assignment/src/scripts/measure_rdflib.py:67-67 | Each measurement node has exactly one outgoing `has_unit` edge, to its row's unit. |
| `SampleGraph.SampleArtifacts` | projects/project-4/assignment/src/scripts/measure_rdflib.py:17-25 | The embedded table's graph has four artifact nodes. |
| `SampleGraph.SampleQualities` | projects/project-4/assignment/src/scripts/measure_rdflib.py:17-25 | It has six quality nodes; the two Chiller-4 temperature rows share one. |
| `SampleGraph.SampleMeasurements` | projects/project-4/assignment/src/scripts/measure_rdflib.py:17-25 | It has seven measurement nodes. |
| `SampleGraph.SampleUnits` | projects/project-4/assignment/src/scripts/measure_rdflib.py:17-25 | It has five unit nodes. |
| `SampleGraph.OhmUnitName` | projects/project-4/assignment/src/scripts/measure_rdflib.py:24-24 | The ohm sign slugs to `_`, so its unit node is `Unit__`. |

### Notable behaviour of the code

- **Alias resolution.** The code resolves an alias chain with `or`, so a present but falsy value is skipped: `0`, `""`, `[]` or `false` falls through to the next alias. A reading of `0` is lost this way (`SensorJson.ZeroValueBecomesNone`).
- **Sample graph counts.** The table embedded in the emitter gives 5 unit nodes and 6 quality nodes (`SampleGraph.SampleUnits`, `SampleGraph.SampleQualities`). `degC`, `kPa_gauge`, `degF`, `V` and `Ω` are distinct labels, and `Ω` becomes `Unit__`.
- **Unknown kinds and units.** There is no strict variant. An unknown kind or unit passes through with its original capitals (`Synonyms.KindCaseHandling`).

## Left out

- File reading and writing, directory creation and console output. The loaders take the file contents as values; the graph is not serialised.
- Library internals: `json.loads`, pandas' `repr` of numbers, `pd.to_numeric`, `dateutil` parsing, time-zone conversion and `isoformat`. These are parameters of `Foreign.Library`, which is foreign code with floating-point and calendar arithmetic.
- CSV text parsing. A CSV is given already split into a header and rows of equal width (`Tabular.WellFormed`). The header mangling pandas applies to duplicate names is not modelled. Renaming can produce two columns with the same canonical name. The script then raises: pandas cannot concatenate a frame whose column names repeat, and selecting such a column gives a frame without `.str`. The model does not fail there; `Tabular.CellUnder` reads the first such column.
- pandas dtype inference. A frame built from JSON keeps each value's JSON form, so `None` renders as `None`, while a missing CSV cell is `NaN` and renders as `nan`. pandas can turn `None` into `NaN` in numeric columns; that is not modelled.
- `pd.isna` applied to a list cell. It returns an array, so `to_iso8601` raises on a JSON timestamp that is a list of two or more items and the script stops. The model does not fail there: it treats such a timestamp as present and hands its text to the parser.
- `JsonData.Json`: a JSON number is a single `real`. `json.loads` keeps `7` (an int) apart from `7.0` (a float), and `str`/`astype(str)` renders them as `"7"` and `"7.0"`. So an id, kind, unit or timestamp that arrives as a JSON number can render differently in the script than in the model. `json.loads` also accepts `NaN`, `Infinity` and `-Infinity`, which `JNum` cannot hold. A `NaN` is truthy in the alias chain but missing to `pd.isna`, so `{"val": NaN, "value": 5}` gives a dropped row in the script. The model does not represent such a value.
- `Text.Lower`: covers ASCII, Latin-1 and Greek capitals only. Python's full Unicode case table and the final-sigma rule are not modelled.
- `Cleaning.SortRows`: proves sortedness and permutation only. pandas sorts on two keys stably, keeping rows with equal keys in input order. The model's insertion also puts an earlier row before a later one with an equal key, but that stability is not stated as a contract.
- The value and timestamp literals of the graph. Values are opaque reals, and the date-time text is a parameter (`render`) standing for `dateutil` parsing followed by `isoformat`.
- Namespace IRIs and prefix bindings. Nodes are named by their local names in the `ex:` namespace and by the vocabulary terms of `Graph.Vocab`.
- `run_sparql_qc.py`. It is filesystem checks and SPARQL evaluation by rdflib; its only logic is counting queries with results.
