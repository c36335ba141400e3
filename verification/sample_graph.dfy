/** The seven-row table the graph emitter is written around, and the node
    counts its graph has: four artifacts, six qualities, seven measurements
    and five units (the ohm sign slugs to `_`, giving the unit `Unit__`).
 */
module SampleGraph {
  import opened Slugs
  import opened Graph

  const SampleRows: seq<Reading> := [
    Reading("Boiler-07", "temperature", "degC", 100.0, "2024-03-17T23:03:00Z"),
    Reading("Boiler-07", "pressure", "kPa_gauge", 101.325, "2024-03-17T23:04:00Z"),
    Reading("Chiller-3", "temperature", "degC", 19.5, "2024-03-18T12:01:00Z"),
    Reading("Chiller-4", "temperature", "degF", 6.5, "2024-03-18T12:01:00Z"),
    Reading("Chiller-4", "temperature", "degF", 19.5, "2024-03-18T12:06:00Z"),
    Reading("Circuit-12", "voltage", "V", 2.0, "2024-03-18T12:01:01Z"),
    Reading("Circuit-12", "resistance", "\U{3A9}", 1.3, "2024-03-18T12:06:00Z")
  ]

  /** Seven rows give at most seven nodes of each class, one per row. */
  lemma RowNodesOfSeven(rows: seq<Reading>, cls: Vocab)
    requires |rows| == 7
    ensures RowNodes(rows, cls) ==
            { Node(rows[0], 0, cls), Node(rows[1], 1, cls), Node(rows[2], 2, cls), Node(rows[3], 3, cls),
              Node(rows[4], 4, cls), Node(rows[5], 5, cls), Node(rows[6], 6, cls) }
  {
  }

  /** Every artifact id of the table is already safe. */
  lemma ArtifactSlugs()
    ensures Slug("Boiler-07") == "Boiler-07" && Slug("Chiller-3") == "Chiller-3"
    ensures Slug("Chiller-4") == "Chiller-4" && Slug("Circuit-12") == "Circuit-12"
  {
  }

  lemma KindSlugs()
    ensures Slug("temperature") == "temperature" && Slug("pressure") == "pressure"
    ensures Slug("voltage") == "voltage" && Slug("resistance") == "resistance"
  {
  }

  /** The unit labels are safe, except the ohm sign. */
  lemma UnitSlugs()
    ensures Slug("degC") == "degC" && Slug("kPa_gauge") == "kPa_gauge"
    ensures Slug("degF") == "degF" && Slug("V") == "V"
    ensures Slug("\U{3A9}") == "_"
  {
  }

  /** Pairwise distinct values make a set of four. */
  lemma FourDistinct<T>(a: T, b: T, c: T, d: T)
    requires a != b && a != c && a != d && b != c && b != d && c != d
    ensures |{a, b, c, d}| == 4
  {
  }

  lemma FiveDistinct<T>(a: T, b: T, c: T, d: T, e: T)
    requires a != b && a != c && a != d && a != e && b != c && b != d && b != e
    requires c != d && c != e && d != e
    ensures |{a, b, c, d, e}| == 5
  {
  }

  lemma SixDistinct<T>(a: T, b: T, c: T, d: T, e: T, f: T)
    requires a != b && a != c && a != d && a != e && a != f
    requires b != c && b != d && b != e && b != f
    requires c != d && c != e && c != f && d != e && d != f && e != f
    ensures |{a, b, c, d, e, f}| == 6
  {
  }

  /** The artifact node of each row: rows sharing an id share the node. */
  lemma SampleArtifactRowNodes()
    ensures RowNodes(SampleRows, Artifact) ==
            { Ex(ArtifactName("Boiler-07")), Ex(ArtifactName("Chiller-3")),
              Ex(ArtifactName("Chiller-4")), Ex(ArtifactName("Circuit-12")) }
  {
    RowNodesOfSeven(SampleRows, Artifact);
  }

  lemma SampleArtifactSlugsDiffer()
    ensures Slug("Boiler-07") != Slug("Chiller-3") && Slug("Boiler-07") != Slug("Chiller-4")
    ensures Slug("Boiler-07") != Slug("Circuit-12") && Slug("Chiller-3") != Slug("Chiller-4")
    ensures Slug("Chiller-3") != Slug("Circuit-12") && Slug("Chiller-4") != Slug("Circuit-12")
  {
    ArtifactSlugs();
    assert "Boiler-07"[0] != "Chiller-3"[0] && "Boiler-07"[0] != "Circuit-12"[0];
    assert "Chiller-3"[8] != "Chiller-4"[8] && "Chiller-3"[1] != "Circuit-12"[1];
    assert "Chiller-4"[1] != "Circuit-12"[1];
  }

  /** The graph of the table has four artifact nodes. */
  lemma SampleArtifacts(render: string -> string)
    ensures Typed(Build(SampleRows, render), Artifact) ==
            { Ex(ArtifactName("Boiler-07")), Ex(ArtifactName("Chiller-3")),
              Ex(ArtifactName("Chiller-4")), Ex(ArtifactName("Circuit-12")) }
    ensures |Typed(Build(SampleRows, render), Artifact)| == 4
  {
    TypedNodes(SampleRows, render, Artifact);
    SampleArtifactRowNodes();
    SampleArtifactSlugsDiffer();
    ArtifactNameInjective("Boiler-07", "Chiller-3");
    ArtifactNameInjective("Boiler-07", "Chiller-4");
    ArtifactNameInjective("Boiler-07", "Circuit-12");
    ArtifactNameInjective("Chiller-3", "Chiller-4");
    ArtifactNameInjective("Chiller-3", "Circuit-12");
    ArtifactNameInjective("Chiller-4", "Circuit-12");
    FourDistinct(Ex(ArtifactName("Boiler-07")), Ex(ArtifactName("Chiller-3")),
                 Ex(ArtifactName("Chiller-4")), Ex(ArtifactName("Circuit-12")));
  }

  /** The artifact nodes are named `Artifact_` and the id. */
  lemma SampleArtifactNames()
    ensures ArtifactName("Boiler-07") == "Artifact_Boiler-07"
    ensures ArtifactName("Circuit-12") == "Artifact_Circuit-12"
  {
    ArtifactSlugs();
  }

  lemma SampleQualityRowNodes()
    ensures RowNodes(SampleRows, Quality) ==
            { Ex(QualityName("Boiler-07", "temperature")), Ex(QualityName("Boiler-07", "pressure")),
              Ex(QualityName("Chiller-3", "temperature")), Ex(QualityName("Chiller-4", "temperature")),
              Ex(QualityName("Circuit-12", "voltage")), Ex(QualityName("Circuit-12", "resistance")) }
  {
    RowNodesOfSeven(SampleRows, Quality);
  }

  /** No artifact id of the table contains `_`, so its quality names are
      told apart by artifact and kind. */
  lemma SampleQualityNamesDiffer()
    ensures QualityName("Boiler-07", "temperature") != QualityName("Boiler-07", "pressure")
    ensures QualityName("Circuit-12", "voltage") != QualityName("Circuit-12", "resistance")
    ensures forall a, k, b, l |
              a in {"Boiler-07", "Chiller-3", "Chiller-4", "Circuit-12"} &&
              b in {"Boiler-07", "Chiller-3", "Chiller-4", "Circuit-12"} && a != b ::
              QualityName(a, k) != QualityName(b, l)
  {
    ArtifactSlugs();
    KindSlugs();
    SampleArtifactSlugsDiffer();
    assert '_' !in "Boiler-07" && '_' !in "Chiller-3" && '_' !in "Chiller-4" && '_' !in "Circuit-12";
    QualityNameInjectiveWithoutUnderscore("Boiler-07", "temperature", "Boiler-07", "pressure");
    QualityNameInjectiveWithoutUnderscore("Circuit-12", "voltage", "Circuit-12", "resistance");
    forall a, k, b, l |
      a in {"Boiler-07", "Chiller-3", "Chiller-4", "Circuit-12"} &&
      b in {"Boiler-07", "Chiller-3", "Chiller-4", "Circuit-12"} && a != b
      ensures QualityName(a, k) != QualityName(b, l)
    {
      QualityNameInjectiveWithoutUnderscore(a, k, b, l);
    }
  }

  /** The graph of the table has six quality nodes: the two Chiller-4
      temperature rows share one. */
  lemma SampleQualities(render: string -> string)
    ensures Typed(Build(SampleRows, render), Quality) ==
            { Ex(QualityName("Boiler-07", "temperature")), Ex(QualityName("Boiler-07", "pressure")),
              Ex(QualityName("Chiller-3", "temperature")), Ex(QualityName("Chiller-4", "temperature")),
              Ex(QualityName("Circuit-12", "voltage")), Ex(QualityName("Circuit-12", "resistance")) }
    ensures |Typed(Build(SampleRows, render), Quality)| == 6
  {
    TypedNodes(SampleRows, render, Quality);
    SampleQualityRowNodes();
    SampleQualityNamesDiffer();
    SixDistinct(Ex(QualityName("Boiler-07", "temperature")), Ex(QualityName("Boiler-07", "pressure")),
                Ex(QualityName("Chiller-3", "temperature")), Ex(QualityName("Chiller-4", "temperature")),
                Ex(QualityName("Circuit-12", "voltage")), Ex(QualityName("Circuit-12", "resistance")));
  }

  lemma SampleUnitRowNodes()
    ensures RowNodes(SampleRows, MeasurementUnit) ==
            { Ex(UnitName("degC")), Ex(UnitName("kPa_gauge")), Ex(UnitName("degF")),
              Ex(UnitName("V")), Ex(UnitName("\U{3A9}")) }
  {
    RowNodesOfSeven(SampleRows, MeasurementUnit);
  }

  lemma SampleUnitSlugsDiffer()
    ensures Slug("degC") != Slug("kPa_gauge") && Slug("degC") != Slug("degF")
    ensures Slug("degC") != Slug("V") && Slug("degC") != Slug("\U{3A9}")
    ensures Slug("kPa_gauge") != Slug("degF") && Slug("kPa_gauge") != Slug("V")
    ensures Slug("kPa_gauge") != Slug("\U{3A9}") && Slug("degF") != Slug("V")
    ensures Slug("degF") != Slug("\U{3A9}") && Slug("V") != Slug("\U{3A9}")
  {
    UnitSlugs();
    assert "degC"[3] != "degF"[3] && "V"[0] != "_"[0];
  }

  /** The graph of the table has five unit nodes. */
  lemma SampleUnits(render: string -> string)
    ensures Typed(Build(SampleRows, render), MeasurementUnit) ==
            { Ex(UnitName("degC")), Ex(UnitName("kPa_gauge")), Ex(UnitName("degF")),
              Ex(UnitName("V")), Ex(UnitName("\U{3A9}")) }
    ensures |Typed(Build(SampleRows, render), MeasurementUnit)| == 5
  {
    TypedNodes(SampleRows, render, MeasurementUnit);
    SampleUnitRowNodes();
    SampleUnitSlugsDiffer();
    UnitNameInjective("degC", "kPa_gauge");
    UnitNameInjective("degC", "degF");
    UnitNameInjective("degC", "V");
    UnitNameInjective("degC", "\U{3A9}");
    UnitNameInjective("kPa_gauge", "degF");
    UnitNameInjective("kPa_gauge", "V");
    UnitNameInjective("kPa_gauge", "\U{3A9}");
    UnitNameInjective("degF", "V");
    UnitNameInjective("degF", "\U{3A9}");
    UnitNameInjective("V", "\U{3A9}");
    FiveDistinct(Ex(UnitName("degC")), Ex(UnitName("kPa_gauge")), Ex(UnitName("degF")),
                 Ex(UnitName("V")), Ex(UnitName("\U{3A9}")));
  }

  /** The ohm sign's unit node is `Unit__`. */
  lemma OhmUnitName()
    ensures UnitName("\U{3A9}") == "Unit__"
  {
    UnitSlugs();
  }

  lemma SampleMeasurements(render: string -> string)
    ensures |Typed(Build(SampleRows, render), Measurement)| == 7
  {
    MeasurementCount(SampleRows, render);
  }
}
