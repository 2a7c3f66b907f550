/** The mapping configuration: how a row is matched to an entity and which
    labels, descriptions, aliases, claims and references it yields. A
    descriptor reads the row cell at `idx`, or, when `idx == -1`, a constant
    written in the descriptor itself. */
module Mapping {
  import opened Wrappers
  import opened Base

  /** The `type` of a claim or qualifier target descriptor, with the fields
      that only that type reads. Any other type string is `OtherKind`. */
  datatype Kind =
    | GlobeCoordinate(latIdx: int, lonIdx: int)       // 'globe-coordinate', lat.idx and lon.idx
    | WikibaseItem                                    // 'wikibase-item'
    | StringKind                                      // 'string'
    | MonolingualKind(language: Option<string>)       // 'monolingualtext', optional 'language'
    | GeoShapeKind(mapPage: string)                   // 'geo-shape', 'map_page'
    | ExternalId                                      // 'external-id'
    | QuantityKind(unit: Option<string>, margin: Option<string>)  // 'quantity', optional 'amount' and 'me'
    | TimeKind                                        // 'time'
    | OtherKind(tag: string)

  /** A target descriptor: its type, the row index, and the constant used
      when the index is -1. */
  datatype ValueDesc = ValueDesc(kind: Kind, idx: int, value: string)

  /** One entry of a target's `qualifiers` list. */
  datatype QualifierDesc = QualifierDesc(property: PropId, target: ValueDesc)

  /** One entry of a claim's `targets` list. */
  datatype ClaimTarget = ClaimTarget(value: ValueDesc, qualifiers: seq<QualifierDesc>)

  /** One entry of the `reference` list: the source property
      (`config.value`), the row index, and the constant for index -1. */
  datatype RefDesc = RefDesc(property: PropId, idx: int, value: string)

  /** One entry of the `mapping` list, by its `type`. A description carries
      its optional `config.value`; a claim its property (`config.value`) and
      its targets. Entries of any other type are ignored. */
  datatype FieldDesc =
    | LabelField(idx: int)
    | DescriptionField(idx: int, config: Option<string>)
    | AliasesField(idx: int)
    | DatatypeField(idx: int)
    | ClaimField(property: PropId, targets: seq<ClaimTarget>)
    | OtherField(tag: string)

  /** The `source` part: the entity type ('property' or an item type), the
      row index of the matching value (`upsert.idx`) and `upsert.matchType`. */
  datatype SourceConf = SourceConf(kind: string, upsertIdx: int, matchType: string)

  /** The whole configuration; `mapping` is `None` when the key is absent. */
  datatype MappingConf = MappingConf(source: SourceConf, mapping: Option<seq<FieldDesc>>, reference: seq<RefDesc>)
}
