/** `to_iso8601`: a timestamp cell to ISO-8601 text in UTC ending in `Z`, or
    `None`. Parsing and rendering are library calls; what is modelled is the
    decision of when there is no result, the naive-time-as-UTC rule, and the
    rewriting of the suffix.
 */
module Timestamps {
  import opened Common
  import opened Text
  import opened JsonData
  import opened Foreign
  import opened Frames

  /** `dt.replace(tzinfo=timezone.utc)` when `dt` is naive. */
  function AssumeUtc(st: Stamp): (r: Stamp)
    ensures r.wall == st.wall
    ensures r.utcOffset.Some?
    ensures st.utcOffset.Some? ==> r == st
    ensures st.utcOffset.None? ==> r.utcOffset == Some(0)
  {
    if st.utcOffset.None? then Stamp(st.wall, Some(0)) else st
  }

  /** `None` for a missing or blank cell, for text the parser rejects, and
      for a time whose conversion to UTC raises (all inside the same
      `except Exception`); otherwise the parsed time, taken as UTC when naive,
      rendered in UTC with `+00:00` replaced by `Z` and a `Z` appended when it
      still does not end in one. */
  function ToIso8601(c: Cell, lib: Library): (r: Option<string>)
    ensures r.None? <==> || IsMissing(c) || Strip(Str(c, lib)) == []
                         || lib.parseDate(Str(c, lib)).None?
                         || lib.isoUtc(AssumeUtc(lib.parseDate(Str(c, lib)).value)).None?
    ensures r.Some? ==> EndsWithZ(r.value) && !Contains(r.value, UtcOffset)
    ensures r.Some? ==> r.value == ZSuffix(lib.isoUtc(AssumeUtc(lib.parseDate(Str(c, lib)).value)).value)
  {
    if IsMissing(c) || Strip(Str(c, lib)) == [] then None
    else
      match lib.parseDate(Str(c, lib))
      case None => None
      case Some(st) =>
        match lib.isoUtc(AssumeUtc(st))
        case None => None
        case Some(iso) => Some(ZSuffix(iso))
  }

  /** A cell whose text parses to a naive time converts exactly like a cell
      whose text parses to the same wall-clock time explicitly at UTC. */
  lemma NaiveIsUtc(c: Cell, d: Cell, lib: Library, wall: string)
    requires !IsMissing(c) && Strip(Str(c, lib)) != []
    requires !IsMissing(d) && Strip(Str(d, lib)) != []
    requires lib.parseDate(Str(c, lib)) == Some(Stamp(wall, None))
    requires lib.parseDate(Str(d, lib)) == Some(Stamp(wall, Some(0)))
    ensures ToIso8601(c, lib) == ToIso8601(d, lib)
  {
  }

  /** The usual rendering of a UTC time, `<body>+00:00`, comes out as
      `<body>Z`. */
  lemma UtcRenderingEndsInZ(c: Cell, lib: Library, body: string)
    requires ToIso8601(c, lib).Some?
    requires lib.isoUtc(AssumeUtc(lib.parseDate(Str(c, lib)).value)) == Some(body + UtcOffset)
    requires '+' !in body
    ensures ToIso8601(c, lib) == Some(body + "Z")
  {
    UtcRenderingGetsZ(body);
  }

  /** Whitespace-only text is blank: no parse is attempted. */
  lemma BlankTextHasNoTime(lib: Library)
    ensures ToIso8601(Py(JStr(" \t")), lib) == None
  {
    assert Strip(" \t") == [] by {
      assert TrimStart(" \t") == [];
    }
  }
}
