/** Resolution of a target descriptor and a row into a typed value: the
    dispatch of `__determine_target`. */
module Targets {
  import opened Wrappers
  import opened Base
  import opened Mapping
  import Text

  /** A resolved claim, qualifier or source value. Floating-point parsing of
      coordinates and timestamp parsing are not modelled: the cell text
      stands for the parsed value. */
  datatype Target =
    | Coordinate(lat: string, lon: string, degrees: real)
    | ItemRef(id: Option<EntityId>)
    | Str(text: string)
    | Monolingual(text: string, language: string)
    | GeoShape(page: string)
    | Amount(amount: string, unit: Option<string>, error: Option<string>)
    | Time(stamp: string, precision: nat)

  /** Coordinates are built with a precision of 0.001 degrees. */
  const CoordinatePrecision: real := 0.001

  /** Times are wrapped with precision code 11 (day). */
  const DayPrecision: nat := 11

  /** The date-separator stripping applied to a time cell: if it holds a '-',
      every '-' is dropped; otherwise every '/' is dropped. */
  function NormaliseTime(v: string): string
  {
    if '-' in v then Text.Without(v, '-')
    else if '/' in v then Text.Without(v, '/')
    else v
  }

  /** What stripping does to the characters: when the cell holds a '-', all
      '-' go and every '/' stays; otherwise all '/' go; the characters kept
      keep their order, so nothing else changes. */
  lemma TimeSeparators(v: string)
    ensures '-' in v ==> multiset(NormaliseTime(v)) == multiset(v)['-' := 0]
    ensures '-' !in v ==> multiset(NormaliseTime(v)) == multiset(v)['/' := 0]
    ensures Text.Subseq(NormaliseTime(v), v)
  {
    Text.WithoutCounts(v, '-');
    Text.WithoutCounts(v, '/');
    Text.WithoutSubseq(v, '-');
    Text.WithoutSubseq(v, '/');
    Text.SubseqRefl(v);
  }

  /** Stripping is idempotent exactly when the cell does not mix both
      separators: with both, a second pass still removes the '/'. */
  lemma TimeNormalisationIdempotent(v: string)
    ensures NormaliseTime(NormaliseTime(v)) == NormaliseTime(v) <==> !('-' in v && '/' in v)
  {
    var r := NormaliseTime(v);
    TimeSeparators(v);
    assert multiset(r)['-'] == 0;
    assert '-' !in multiset(r);
    if '-' in v && '/' in v {
      assert '/' in multiset(r);
      Text.WithoutCounts(r, '/');
      assert |multiset(NormaliseTime(r))| < |multiset(r)|;
    } else {
      assert '/' !in multiset(r);
      assert '/' !in r;
    }
  }

  /** True when the cells a descriptor reads exist in the row. */
  predicate Readable(d: ValueDesc, row: Row)
  {
    if d.kind.GlobeCoordinate? then Cell(row, d.kind.latIdx).Ok? && Cell(row, d.kind.lonIdx).Ok?
    else d.idx == -1 || Cell(row, d.idx).Ok?
  }

  /** `__determine_target`, in its order: globe-coordinate reads two cells;
      a constant wikibase-item is looked up by label; any other constant is
      returned as it is; every other type reads its cell first, then builds
      its value; an unknown type falls back to an item lookup of the cell. */
  function Resolve(d: ValueDesc, row: Row, search: SearchOracle): (r: Result<Target, Error>)
    ensures r.Err? <==> !Readable(d, row)
    ensures r.Err? ==> r.error.IndexOutOfRange?
  {
    if d.kind.GlobeCoordinate? then
      var lat :- Cell(row, d.kind.latIdx);
      var lon :- Cell(row, d.kind.lonIdx);
      Ok(Coordinate(lat, lon, CoordinatePrecision))
    else if d.idx == -1 && d.kind == WikibaseItem then
      Ok(ItemRef(search(d.value, "item")))
    else if d.idx == -1 then
      Ok(Str(d.value))
    else
      var value :- Cell(row, d.idx);
      match d.kind
      case StringKind => Ok(Str(value))
      case MonolingualKind(lang) => Ok(Monolingual(value, lang.GetOr("en")))
      case GeoShapeKind(page) => Ok(GeoShape(page))
      case ExternalId => Ok(Str(value))
      case QuantityKind(unit, margin) => Ok(Amount(value, unit, margin))
      case TimeKind => Ok(Time(NormaliseTime(value), DayPrecision))
      case _ => Ok(ItemRef(search(value, "item")))
  }

  /** The coordinate test comes first: a globe-coordinate descriptor reads
      its two cells whatever its own index, and an index of -1 does not make
      it a constant. */
  lemma CoordinateBeforeConstant(d: ValueDesc, row: Row, search: SearchOracle)
    requires d.kind.GlobeCoordinate?
    ensures Resolve(d, row, search).Ok? <==> Cell(row, d.kind.latIdx).Ok? && Cell(row, d.kind.lonIdx).Ok?
    ensures Resolve(d, row, search).Ok? ==>
      Resolve(d, row, search).value == Coordinate(Cell(row, d.kind.latIdx).value, Cell(row, d.kind.lonIdx).value, CoordinatePrecision)
    ensures Resolve(d, row, search) == Resolve(d.(idx := -1), row, search)
  {
  }

  /** A constant descriptor (index -1, not a coordinate) never reads the row:
      a wikibase-item constant is looked up by its label, any other constant
      is returned verbatim, even for types such as time. */
  lemma ConstantIgnoresRow(d: ValueDesc, row1: Row, row2: Row, search: SearchOracle)
    requires !d.kind.GlobeCoordinate? && d.idx == -1
    ensures Resolve(d, row1, search) == Resolve(d, row2, search)
    ensures Resolve(d, row1, search) ==
      Ok(if d.kind == WikibaseItem then ItemRef(search(d.value, "item")) else Str(d.value))
  {
  }

  /** An unknown type bound to a row index resolves exactly as a
      wikibase-item would, while as a constant it is returned verbatim. */
  lemma UnknownKindFallsBackToItem(d: ValueDesc, row: Row, search: SearchOracle)
    requires d.kind.OtherKind? && d.idx != -1 && Readable(d, row)
    ensures Resolve(d, row, search) == Resolve(d.(kind := WikibaseItem), row, search)
    ensures Resolve(d, row, search) == Ok(ItemRef(search(Cell(row, d.idx).value, "item")))
  {
  }

  /** A row-bound string or external id is the cell text itself, and a
      quantity is the cell text with the configured unit and margin. */
  lemma TextualResolution(d: ValueDesc, row: Row, search: SearchOracle)
    requires (d.kind == StringKind || d.kind == ExternalId || d.kind.QuantityKind?) && d.idx != -1 && Readable(d, row)
    ensures d.kind.QuantityKind? ==>
      Resolve(d, row, search) == Ok(Amount(Cell(row, d.idx).value, d.kind.unit, d.kind.margin))
    ensures !d.kind.QuantityKind? ==> Resolve(d, row, search) == Ok(Str(Cell(row, d.idx).value))
  {
  }

  /** A row-bound monolingual text carries the configured language, and
      "en" when none is configured. */
  lemma MonolingualDefaultsToEnglish(d: ValueDesc, row: Row, search: SearchOracle)
    requires d.kind.MonolingualKind? && d.idx != -1 && Readable(d, row)
    ensures Resolve(d, row, search).Ok? && Resolve(d, row, search).value.Monolingual?
    ensures Resolve(d, row, search).value.text == Cell(row, d.idx).value
    ensures d.kind.language.None? ==> Resolve(d, row, search).value.language == "en"
    ensures d.kind.language.Some? ==> Resolve(d, row, search).value.language == d.kind.language.value
  {
  }

  /** A row-bound time is the stripped cell at day precision. */
  lemma TimeResolution(d: ValueDesc, row: Row, search: SearchOracle)
    requires d.kind == TimeKind && d.idx != -1 && Readable(d, row)
    ensures Resolve(d, row, search) == Ok(Time(NormaliseTime(Cell(row, d.idx).value), DayPrecision))
  {
  }

  /** A geo-shape still needs its cell to exist, though its value is only
      the configured map page. */
  lemma GeoShapeIgnoresCellText(d: ValueDesc, row: Row, search: SearchOracle)
    requires d.kind.GeoShapeKind? && d.idx != -1
    ensures Resolve(d, row, search).Ok? <==> Cell(row, d.idx).Ok?
    ensures Resolve(d, row, search).Ok? ==> Resolve(d, row, search).value == GeoShape(d.kind.mapPage)
  {
  }
}
