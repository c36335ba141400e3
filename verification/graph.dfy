/** The measurement graph: each cleaned reading adds nine triples about an
    artifact, its quality, one measurement and a unit, named from slugs of
    the reading's fields, to a graph that is a set of triples.
 */
module Graph {
  import opened Text
  import opened Slugs

  /** The fixed IRIs the emitter uses: `rdf:type` and the Common Core terms. */
  datatype Vocab =
    | RdfType
    | Artifact | HasQuality | Quality | HasMeasurement | Measurement
    | HasDataValue | MeasurementTime | HasUnit | MeasurementUnit

  /** A node: a name in the `ex:` namespace, a vocabulary term, or a typed
      literal (the float value, the date-time text). */
  datatype Term = Ex(name: string) | V(v: Vocab) | FloatLit(x: real) | TimeLit(t: string)

  datatype Triple = Triple(s: Term, p: Term, o: Term)

  /** One row of the table the emitter reads. */
  datatype Reading = Reading(artifactId: string, kind: string, unit: string,
                             value: real, timestamp: string)

  /* ---------------------------------------------------------------------------
     Node names
     ------------------------------------------------------------------------- */

  function ArtifactName(a: string): string {
    "Artifact_" + Slug(a)
  }

  function QualityName(a: string, k: string): string {
    Slug(a) + "_" + Slug(k) + "_Quality"
  }

  /** The only name that carries the row index. */
  function MeasurementName(a: string, k: string, i: nat): string {
    Slug(a) + "_" + Slug(k) + "_Measurement_" + NatToString(i)
  }

  function UnitName(u: string): string {
    "Unit_" + Slug(u)
  }

  /** Two artifact nodes coincide exactly when the slugs of their ids do. */
  lemma ArtifactNameInjective(a: string, b: string)
    ensures ArtifactName(a) == ArtifactName(b) <==> Slug(a) == Slug(b)
  {
    if ArtifactName(a) == ArtifactName(b) {
      assert ArtifactName(a)[9..] == Slug(a);
      assert ArtifactName(b)[9..] == Slug(b);
    }
  }

  /** Two unit nodes coincide exactly when the slugs of their labels do. */
  lemma UnitNameInjective(a: string, b: string)
    ensures UnitName(a) == UnitName(b) <==> Slug(a) == Slug(b)
  {
    if UnitName(a) == UnitName(b) {
      assert UnitName(a)[5..] == Slug(a);
      assert UnitName(b)[5..] == Slug(b);
    }
  }

  /** Quality names are not injective: the separator `_` is itself a safe
      character, so `("A_b", "c")` and `("A", "b_c")` name the same node. */
  lemma QualityNameCollides()
    ensures QualityName("A_b", "c") == QualityName("A", "b_c")
  {
    assert Slug("A_b") == "A_b" && Slug("c") == "c";
    assert Slug("A") == "A" && Slug("b_c") == "b_c";
  }

  /** When the artifact's slug has no `_`, the first `_` of a quality name
      ends the artifact part, and the name determines both slugs. */
  lemma QualityNameInjectiveWithoutUnderscore(a: string, k: string, b: string, l: string)
    requires '_' !in Slug(a) && '_' !in Slug(b)
    ensures QualityName(a, k) == QualityName(b, l) <==> Slug(a) == Slug(b) && Slug(k) == Slug(l)
  {
    var x, y := QualityName(a, k), QualityName(b, l);
    var sa, sb := Slug(a), Slug(b);
    if x == y {
      FirstUnderscore(sa, Slug(k) + "_Quality", x);
      FirstUnderscore(sb, Slug(l) + "_Quality", y);
      assert |sa| == |sb|;
      assert sa == x[..|sa|] && sb == y[..|sb|];
      assert Slug(k) == x[|sa| + 1..|x| - 8];
      assert Slug(l) == y[|sb| + 1..|y| - 8];
    }
  }

  /** In `p + "_" + q` with no `_` in `p`, the first `_` is at `|p|`. */
  lemma FirstUnderscore(p: string, q: string, s: string)
    requires '_' !in p && s == p + "_" + q
    ensures s[|p|] == '_'
    ensures forall n | 0 <= n < |p| :: s[n] != '_'
  {
    forall n | 0 <= n < |p| ensures s[n] != '_' {
      assert s[n] == p[n];
    }
  }

  /** The text after the last `_` (all of it when there is none). */
  function AfterLastUnderscore(s: string): (r: string)
    ensures '_' !in r
    decreases |s|
  {
    if s == [] then []
    else if s[|s| - 1] == '_' then []
    else AfterLastUnderscore(s[..|s| - 1]) + [s[|s| - 1]]
  }

  lemma {:induction false} AfterLastUnderscoreOfSuffix(p: string, d: string)
    requires '_' !in d
    ensures AfterLastUnderscore(p + "_" + d) == d
    decreases |d|
  {
    var s := p + "_" + d;
    if d == [] {
      assert s[|s| - 1] == '_';
    } else {
      var d' := d[..|d| - 1];
      assert s[..|s| - 1] == p + "_" + d';
      assert s[|s| - 1] == d[|d| - 1];
      AfterLastUnderscoreOfSuffix(p, d');
      assert d == d' + [d[|d| - 1]];
    }
  }

  /** A measurement name ends in `_` and the decimal row index, so the index
      can be read back from it: different rows never share a measurement
      node, whatever their other fields. */
  lemma MeasurementNameIndex(a: string, k: string, i: nat)
    ensures AfterLastUnderscore(MeasurementName(a, k, i)) == NatToString(i)
  {
    var d := NatToString(i);
    assert '_' !in d by {
      forall c | c in d ensures c != '_' {
        var n :| 0 <= n < |d| && d[n] == c;
      }
    }
    var p := Slug(a) + "_" + Slug(k) + "_Measurement";
    assert MeasurementName(a, k, i) == p + "_" + d;
    AfterLastUnderscoreOfSuffix(p, d);
  }

  lemma MeasurementNameInjective(a: string, k: string, i: nat, b: string, l: string, j: nat)
    ensures MeasurementName(a, k, i) == MeasurementName(b, l, j) ==> i == j
  {
    MeasurementNameIndex(a, k, i);
    MeasurementNameIndex(b, l, j);
    if MeasurementName(a, k, i) == MeasurementName(b, l, j) {
      NatToStringInjective(i, j);
    }
  }

  /* ---------------------------------------------------------------------------
     The triples of one row, and the graph
     ------------------------------------------------------------------------- */

  /** The node of class `cls` a row introduces (a unit node for any class
      other than the first three). */
  function Node(r: Reading, i: nat, cls: Vocab): Term {
    match cls
    case Artifact => Ex(ArtifactName(r.artifactId))
    case Quality => Ex(QualityName(r.artifactId, r.kind))
    case Measurement => Ex(MeasurementName(r.artifactId, r.kind, i))
    case _ => Ex(UnitName(r.unit))
  }

  predicate IsClass(cls: Vocab) {
    cls == Artifact || cls == Quality || cls == Measurement || cls == MeasurementUnit
  }

  /** The nine triples row `i` adds; `render` is the date-time text the
      parsed timestamp is written as. */
  function RowTriples(r: Reading, i: nat, render: string -> string): set<Triple> {
    var a, q := Node(r, i, Artifact), Node(r, i, Quality);
    var m, u := Node(r, i, Measurement), Node(r, i, MeasurementUnit);
    { Triple(a, V(RdfType), V(Artifact)),
      Triple(a, V(HasQuality), q),
      Triple(q, V(RdfType), V(Quality)),
      Triple(q, V(HasMeasurement), m),
      Triple(m, V(RdfType), V(Measurement)),
      Triple(m, V(HasDataValue), FloatLit(r.value)),
      Triple(m, V(MeasurementTime), TimeLit(render(r.timestamp))),
      Triple(m, V(HasUnit), u),
      Triple(u, V(RdfType), V(MeasurementUnit)) }
  }

  /** Every row adds exactly nine distinct triples, whatever its names. */
  lemma RowTriplesCount(r: Reading, i: nat, render: string -> string)
    ensures |RowTriples(r, i, render)| == 9
  {
  }

  /** Within one row, a typing triple for a class types that class's node
      and nothing else. */
  lemma RowTyping(r: Reading, i: nat, render: string -> string, cls: Vocab)
    requires IsClass(cls)
    ensures Triple(Node(r, i, cls), V(RdfType), V(cls)) in RowTriples(r, i, render)
    ensures forall t | t in RowTriples(r, i, render) && t.p == V(RdfType) && t.o == V(cls) ::
              t.s == Node(r, i, cls)
  {
  }

  /** The graph after the first `|rows|` iterations: the union of the rows'
      triples, row `i` named with index `i`. */
  function Build(rows: seq<Reading>, render: string -> string): set<Triple>
    decreases |rows|
  {
    if rows == [] then {}
    else Build(rows[..|rows| - 1], render) + RowTriples(rows[|rows| - 1], |rows| - 1, render)
  }

  /** A triple is in the graph exactly when some row adds it. */
  lemma {:induction false} BuildMembers(rows: seq<Reading>, render: string -> string, t: Triple)
    ensures t in Build(rows, render) <==>
            exists i | 0 <= i < |rows| :: t in RowTriples(rows[i], i, render)
    decreases |rows|
  {
    if rows != [] {
      var n := |rows| - 1;
      var front := rows[..n];
      BuildMembers(front, render, t);
      if t in Build(rows, render) && t !in RowTriples(rows[n], n, render) {
        var i :| 0 <= i < |front| && t in RowTriples(front[i], i, render);
        assert front[i] == rows[i];
      }
      if exists i | 0 <= i < |rows| :: t in RowTriples(rows[i], i, render) {
        var i :| 0 <= i < |rows| && t in RowTriples(rows[i], i, render);
        if i < n {
          assert front[i] == rows[i];
        }
      }
    }
  }

  /** The emission loop: one `g.add` per triple, row by row. */
  method EmitGraph(rows: seq<Reading>, render: string -> string) returns (g: set<Triple>)
    ensures g == Build(rows, render)
    ensures forall t :: t in g <==> exists i | 0 <= i < |rows| :: t in RowTriples(rows[i], i, render)
  {
    g := {};
    var idx := 0;
    while idx < |rows|
      invariant 0 <= idx <= |rows|
      invariant g == Build(rows[..idx], render)
    {
      assert rows[..idx + 1][..idx] == rows[..idx];
      g := g + RowTriples(rows[idx], idx, render);
      idx := idx + 1;
    }
    assert rows[..idx] == rows;
    forall t ensures t in g <==> exists i | 0 <= i < |rows| :: t in RowTriples(rows[i], i, render) {
      BuildMembers(rows, render, t);
    }
  }

  /** Adding a triple the graph already holds changes nothing: a row whose
      names all coincide with an earlier row's adds only its own
      measurement's triples. */
  lemma RepeatedRowAddsOnlyItsMeasurement(rows: seq<Reading>, render: string -> string, j: nat)
    requires 0 < j < |rows|
    requires exists i | 0 <= i < j :: rows[i].artifactId == rows[j].artifactId
                                    && rows[i].kind == rows[j].kind && rows[i].unit == rows[j].unit
    ensures forall t | t in RowTriples(rows[j], j, render) && t !in Build(rows[..j], render) ::
              t.s == Node(rows[j], j, Measurement) || t.o == Node(rows[j], j, Measurement)
  {
    var i :| 0 <= i < j && rows[i].artifactId == rows[j].artifactId
                        && rows[i].kind == rows[j].kind && rows[i].unit == rows[j].unit;
    var front := rows[..j];
    assert front[i] == rows[i];
    forall t | t in RowTriples(rows[j], j, render) && t.s != Node(rows[j], j, Measurement)
                                                  && t.o != Node(rows[j], j, Measurement)
      ensures t in Build(front, render)
    {
      assert t in RowTriples(front[i], i, render);
      BuildMembers(front, render, t);
    }
  }

  /* ---------------------------------------------------------------------------
     Nodes of each class
     ------------------------------------------------------------------------- */

  /** The subjects typed `cls` in `g`. */
  function Typed(g: set<Triple>, cls: Vocab): set<Term> {
    set t | t in g && t.p == V(RdfType) && t.o == V(cls) :: t.s
  }

  /** The nodes of one class, one per row. */
  function RowNodes(rows: seq<Reading>, cls: Vocab): set<Term> {
    set i | 0 <= i < |rows| :: Node(rows[i], i, cls)
  }

  /** Nodes are deduplicated by name alone: the artifacts, qualities,
      measurements and units of the graph are exactly the names the rows
      produce. */
  lemma TypedNodes(rows: seq<Reading>, render: string -> string, cls: Vocab)
    requires IsClass(cls)
    ensures Typed(Build(rows, render), cls) == RowNodes(rows, cls)
  {
    var g := Build(rows, render);
    forall x | x in Typed(g, cls) ensures x in RowNodes(rows, cls) {
      var t :| t in g && t.p == V(RdfType) && t.o == V(cls) && t.s == x;
      BuildMembers(rows, render, t);
      var i :| 0 <= i < |rows| && t in RowTriples(rows[i], i, render);
      RowTyping(rows[i], i, render, cls);
    }
    forall x | x in RowNodes(rows, cls) ensures x in Typed(g, cls) {
      var i :| 0 <= i < |rows| && x == Node(rows[i], i, cls);
      var t := Triple(x, V(RdfType), V(cls));
      RowTyping(rows[i], i, render, cls);
      BuildMembers(rows, render, t);
    }
  }

  /** The last row adds its own node to those of the rows before it. */
  lemma RowNodesSnoc(rows: seq<Reading>, cls: Vocab)
    requires rows != []
    ensures RowNodes(rows, cls) ==
            RowNodes(rows[..|rows| - 1], cls) + {Node(rows[|rows| - 1], |rows| - 1, cls)}
  {
    var n := |rows| - 1;
    var front := rows[..n];
    forall x | x in RowNodes(rows, cls) ensures x in RowNodes(front, cls) + {Node(rows[n], n, cls)} {
      var i :| 0 <= i < |rows| && x == Node(rows[i], i, cls);
      if i < n {
        assert front[i] == rows[i];
      }
    }
    forall x | x in RowNodes(front, cls) ensures x in RowNodes(rows, cls) {
      var i :| 0 <= i < |front| && x == Node(front[i], i, cls);
      assert front[i] == rows[i];
    }
  }

  /** Measurement nodes of different rows differ. */
  lemma MeasurementNodeInjective(r: Reading, i: nat, s: Reading, j: nat)
    ensures Node(r, i, Measurement) == Node(s, j, Measurement) ==> i == j
  {
    MeasurementNameInjective(r.artifactId, r.kind, i, s.artifactId, s.kind, j);
  }

  /** The last row's measurement node is new. */
  lemma FreshMeasurement(rows: seq<Reading>)
    requires rows != []
    ensures Node(rows[|rows| - 1], |rows| - 1, Measurement) !in RowNodes(rows[..|rows| - 1], Measurement)
  {
    var n := |rows| - 1;
    var front := rows[..n];
    var m := Node(rows[n], n, Measurement);
    if m in RowNodes(front, Measurement) {
      var i :| 0 <= i < |front| && m == Node(front[i], i, Measurement);
      MeasurementNodeInjective(front[i], i, rows[n], n);
    }
  }

  /** There is one measurement node per row. */
  lemma {:induction false} MeasurementNodesPerRow(rows: seq<Reading>)
    ensures |RowNodes(rows, Measurement)| == |rows|
    decreases |rows|
  {
    if rows != [] {
      MeasurementNodesPerRow(rows[..|rows| - 1]);
      RowNodesSnoc(rows, Measurement);
      FreshMeasurement(rows);
    }
  }

  /** The graph has exactly as many measurement nodes as there are rows. */
  lemma MeasurementCount(rows: seq<Reading>, render: string -> string)
    ensures |Typed(Build(rows, render), Measurement)| == |rows|
  {
    TypedNodes(rows, render, Measurement);
    MeasurementNodesPerRow(rows);
  }

  /* ---------------------------------------------------------------------------
     Edges at a measurement node
     ------------------------------------------------------------------------- */

  /** Within one row, the `has_measurement` edge runs from the quality to the
      measurement and the `has_unit` edge from the measurement to the unit. */
  lemma RowEdges(r: Reading, i: nat, render: string -> string, t: Triple)
    requires t in RowTriples(r, i, render)
    ensures t.p == V(HasMeasurement) ==> t == Triple(Node(r, i, Quality), V(HasMeasurement), Node(r, i, Measurement))
    ensures t.p == V(HasUnit) ==> t == Triple(Node(r, i, Measurement), V(HasUnit), Node(r, i, MeasurementUnit))
  {
  }

  /** The measurement of row `i` has exactly one incoming `has_measurement`
      edge, from the quality of its row. */
  lemma MeasurementInEdge(rows: seq<Reading>, render: string -> string, i: nat)
    requires i < |rows|
    ensures var m := Node(rows[i], i, Measurement);
            (set t | t in Build(rows, render) && t.p == V(HasMeasurement) && t.o == m)
            == {Triple(Node(rows[i], i, Quality), V(HasMeasurement), m)}
  {
    var m := Node(rows[i], i, Measurement);
    var edge := Triple(Node(rows[i], i, Quality), V(HasMeasurement), m);
    assert edge in RowTriples(rows[i], i, render);
    BuildMembers(rows, render, edge);
    forall t | t in Build(rows, render) && t.p == V(HasMeasurement) && t.o == m
      ensures t == edge
    {
      BuildMembers(rows, render, t);
      var j :| 0 <= j < |rows| && t in RowTriples(rows[j], j, render);
      RowEdges(rows[j], j, render, t);
      MeasurementNodeInjective(rows[j], j, rows[i], i);
    }
  }

  /** The measurement of row `i` has exactly one outgoing `has_unit` edge, to
      the unit of its row. */
  lemma MeasurementOutEdge(rows: seq<Reading>, render: string -> string, i: nat)
    requires i < |rows|
    ensures var m := Node(rows[i], i, Measurement);
            (set t | t in Build(rows, render) && t.s == m && t.p == V(HasUnit))
            == {Triple(m, V(HasUnit), Node(rows[i], i, MeasurementUnit))}
  {
    var m := Node(rows[i], i, Measurement);
    var edge := Triple(m, V(HasUnit), Node(rows[i], i, MeasurementUnit));
    assert edge in RowTriples(rows[i], i, render);
    BuildMembers(rows, render, edge);
    forall t | t in Build(rows, render) && t.s == m && t.p == V(HasUnit)
      ensures t == edge
    {
      BuildMembers(rows, render, t);
      var j :| 0 <= j < |rows| && t in RowTriples(rows[j], j, render);
      RowEdges(rows[j], j, render, t);
      MeasurementNodeInjective(rows[j], j, rows[i], i);
    }
  }
}
