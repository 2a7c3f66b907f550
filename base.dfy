/** Names shared by every part of the model: rows, identifiers, the errors the
    connector raises, and Python's list indexing. */
module Base {
  import opened Wrappers

  /** One data row: the ordered string cells of an input record. */
  type Row = seq<string>

  /** A property identifier such as "P31". */
  type PropId = string

  /** An entity identifier such as "Q42" or "P31". */
  type EntityId = string

  /** Free-text entity search (wbsearchentities): a term and an entity type
      ("item" or "property") give the first hit's identifier, if any. */
  type SearchOracle = (string, string) -> Option<EntityId>

  /** The exceptions the connector raises, one constructor per cause. */
  datatype Error =
    | IndexOutOfRange(idx: int)   // IndexError from `row[idx]`
    | MissingConfigValue          // KeyError from `info['config']['value']`
    | MissingCreationFields       // ValueError: label, description (or datatype) missing
    | NoPageId                    // ValueError('There is no page id')
    | InvalidPageId(id: string)   // ValueError: the id holds neither 'P' nor 'Q'
    | MappingRequired             // ValueError('Mapping is required')
    | NoSuchEntity                // the bound page does not exist in the store
    | MissingEnglishLabel         // KeyError from `page_dict['labels']['en']`

  /** Python's `row[idx]`: a negative index counts from the end, any other
      index outside the row raises IndexError. */
  function Cell(row: Row, idx: int): (r: Result<string, Error>)
    ensures r.Ok? <==> -|row| <= idx < |row|
    ensures r.Err? ==> r.error == IndexOutOfRange(idx)
    ensures r.Ok? ==> r.value == row[if idx < 0 then |row| + idx else idx]
  {
    if 0 <= idx < |row| then Ok(row[idx])
    else if -|row| <= idx < 0 then Ok(row[|row| + idx])
    else Err(IndexOutOfRange(idx))
  }
}
