/** The synonym maps of `normalize_and_clean` for units and quantity kinds,
    looked up by the lower-cased text, and the cleaning of artifact ids.
 */
module Synonyms {
  import opened Text

  /** UNIT_MAP, keys as written (some with capitals). */
  const UnitMap: map<string, string> := map[
    "celsius" := "degC", "\U{B0}c" := "degC", "c" := "degC", "degc" := "degC", "\U{B0}C" := "degC",
    "fahrenheit" := "degF", "f" := "degF", "degf" := "degF", "\U{B0}f" := "degF", "\U{B0}F" := "degF",
    "pounds per square inch" := "PSI_gauge", "psi" := "PSI_gauge",
    "kilopascal" := "kPa_gauge", "kpa" := "kPa_gauge", "KPA" := "kPa_gauge", "kPa" := "kPa_gauge",
    "volt" := "V", "volts" := "V", "v" := "V", "V" := "V",
    "ohm" := "\U{3A9}", "ohms" := "\U{3A9}", "\U{3A9}" := "\U{3A9}"
  ]

  const UnitLabels: set<string> := {"degC", "degF", "PSI_gauge", "kPa_gauge", "V", "\U{3A9}"}

  /** KIND_MAP. */
  const KindMap: map<string, string> := map[
    "temp" := "temperature", "temperature" := "temperature", "pressure" := "pressure",
    "voltage" := "voltage", "resistance" := "resistance"
  ]

  const KindNames: set<string> := {"temperature", "pressure", "voltage", "resistance"}

  /** `s.lower()` looked up in `m`, falling back to `s` itself (not lowered)
      when the lower-cased text is not a key: `.str.lower().map(m).fillna(s)`. */
  function Normalize(m: map<string, string>, s: string): (r: string)
    ensures Lower(s) in m ==> r == m[Lower(s)]
    ensures Lower(s) !in m ==> r == s
  {
    if Lower(s) in m then m[Lower(s)] else s
  }

  function NormalizeUnit(s: string): string {
    Normalize(UnitMap, s)
  }

  function NormalizeKind(s: string): string {
    Normalize(KindMap, s)
  }

  lemma UnitMapValues()
    ensures forall k | k in UnitMap :: UnitMap[k] in UnitLabels
  {
  }

  /** A normalised unit is one of the six canonical labels, or the input
      unchanged. */
  lemma NormalizeUnitRange(s: string)
    ensures NormalizeUnit(s) in UnitLabels || NormalizeUnit(s) == s
  {
    UnitMapValues();
  }

  /** A normalised kind is one of the four canonical kinds, or the input
      unchanged (with its capitals). */
  lemma NormalizeKindRange(s: string)
    ensures NormalizeKind(s) in KindNames || NormalizeKind(s) == s
  {
    assert forall k | k in KindMap :: KindMap[k] in KindNames;
  }

  /** A label whose lower case is absent from the map, or maps back to the
      label, normalises to itself. */
  lemma FixedUnit(u: string, lower: string)
    requires Lower(u) == lower
    requires lower !in UnitMap || UnitMap[lower] == u
    ensures NormalizeUnit(u) == u
  {
  }

  /** Each canonical unit label normalises to itself. */
  lemma UnitLabelsAreFixed()
    ensures forall u | u in UnitLabels :: NormalizeUnit(u) == u
  {
    LowerOfUnitLabels();
    FixedUnit("degC", "degc");
    FixedUnit("degF", "degf");
    FixedUnit("PSI_gauge", "psi_gauge");
    FixedUnit("kPa_gauge", "kpa_gauge");
    FixedUnit("V", "v");
    FixedUnit("\U{3A9}", "\U{3C9}");
  }

  lemma LowerOfUnitLabels()
    ensures Lower("degC") == "degc" && Lower("degF") == "degf"
    ensures Lower("PSI_gauge") == "psi_gauge" && Lower("kPa_gauge") == "kpa_gauge"
    ensures Lower("V") == "v" && Lower("\U{3A9}") == "\U{3C9}"
  {
  }

  lemma KindNamesAreFixed()
    ensures forall k | k in KindNames :: NormalizeKind(k) == k
  {
    assert Lower("temperature") == "temperature";
    assert Lower("pressure") == "pressure";
    assert Lower("voltage") == "voltage";
    assert Lower("resistance") == "resistance";
  }

  /** Unit normalisation is idempotent. */
  lemma NormalizeUnitIdempotent(s: string)
    ensures NormalizeUnit(NormalizeUnit(s)) == NormalizeUnit(s)
  {
    UnitMapValues();
    UnitLabelsAreFixed();
  }

  /** Kind normalisation is idempotent. */
  lemma NormalizeKindIdempotent(s: string)
    ensures NormalizeKind(NormalizeKind(s)) == NormalizeKind(s)
  {
    NormalizeKindRange(s);
    KindNamesAreFixed();
  }

  /** A key that lower-casing changes is never the lower case of anything. */
  lemma NotALowerCase(s: string, key: string)
    requires Lower(key) != key
    ensures Lower(s) != key
  {
    LowerIdempotent(s);
  }

  /** The keys written with capitals can never be looked up. */
  lemma CapitalisedUnitKeysAreUnreachable(s: string)
    ensures Lower(s) !in {"\U{B0}C", "\U{B0}F", "KPA", "kPa", "V", "\U{3A9}"}
  {
    assert Lower("\U{B0}C")[1] == 'c';
    NotALowerCase(s, "\U{B0}C");
    assert Lower("\U{B0}F")[1] == 'f';
    NotALowerCase(s, "\U{B0}F");
    assert Lower("KPA")[0] == 'k';
    NotALowerCase(s, "KPA");
    assert Lower("kPa")[1] == 'p';
    NotALowerCase(s, "kPa");
    assert Lower("V")[0] == 'v';
    NotALowerCase(s, "V");
    assert Lower("\U{3A9}")[0] == '\U{3C9}';
    NotALowerCase(s, "\U{3A9}");
  }

  /** Unmapped kinds keep their capitals: `"Humidity"` stays `"Humidity"`,
      while a mapped kind is matched whatever its case. */
  lemma KindCaseHandling()
    ensures NormalizeKind("Humidity") == "Humidity"
    ensures NormalizeKind("TEMP") == "temperature"
  {
    assert Lower("Humidity") == "humidity";
    assert Lower("TEMP") == "temp";
  }

  /* ---------------------------------------------------------------------------
     Artifact ids
     ------------------------------------------------------------------------- */

  /** `.str.strip()` then `.str.replace(" ", "-")`. */
  function CleanArtifact(s: string): (r: string)
    ensures ' ' !in r
    ensures |r| == |Strip(s)|
    ensures NoOuterSpace(r)
  {
    Hyphenate(Strip(s))
  }

  lemma HyphenateWithoutSpaces(s: string)
    requires ' ' !in s
    ensures Hyphenate(s) == s
  {
  }

  /** Text without spaces or outer whitespace is already clean. */
  lemma CleanArtifactOfPlainText(s: string)
    requires NoOuterSpace(s) && ' ' !in s
    ensures CleanArtifact(s) == s
  {
    StripKeepsStripped(s);
    HyphenateWithoutSpaces(s);
    assert CleanArtifact(s) == Hyphenate(s);
  }

  /** Cleaning an id twice is cleaning it once. */
  lemma CleanArtifactIdempotent(s: string)
    ensures CleanArtifact(CleanArtifact(s)) == CleanArtifact(s)
  {
    var r := CleanArtifact(s);
    StripKeepsStripped(r);
    HyphenateWithoutSpaces(r);
  }
}
