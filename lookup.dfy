/** Extraction of an entity id from the graph-query response of
    `__get_item_id`. The query itself is sent by the caller's oracle. */
module Lookup {
  import opened Wrappers
  import opened Base
  import Text

  /** The parts of the JSON response that are read: `results.bindings`, if
      `results` is present, each binding mapping a variable to its `value`. */
  datatype QueryResult = QueryResult(results: Option<seq<map<string, string>>>)

  /** The graph-query service: the unique identifier of a row gives the
      response of the query for the entity holding it. */
  type QueryOracle = string -> QueryResult

  /** The first binding's `item` value, cut to the text after its last '/';
      `None` when there is no `results`, no binding, or no `item`. */
  function ItemIdFromResult(res: QueryResult): (r: Option<EntityId>)
    ensures r.None? <==> res.results.None? || res.results.value == [] || "item" !in res.results.value[0]
    ensures r.Some? ==> '/' !in r.value
    ensures r.Some? ==> var uri := res.results.value[0]["item"];
      |r.value| <= |uri| && r.value == uri[|uri| - |r.value|..] &&
      (|r.value| < |uri| ==> uri[|uri| - |r.value| - 1] == '/')
  {
    match res.results
    case None => None
    case Some(bindings) =>
      if |bindings| > 0 && "item" in bindings[0] then Some(Text.LastSegment(bindings[0]["item"]))
      else None
  }

  /** A binding for an entity URI yields its local id; no binding yields
      nothing. */
  lemma ItemIdExamples()
    ensures ItemIdFromResult(QueryResult(Some([map["item" := "http://kb.example/entity/Q42"]]))) == Some("Q42")
    ensures ItemIdFromResult(QueryResult(Some([]))) == None
    ensures ItemIdFromResult(QueryResult(None)) == None
  {
    var uri := "http://kb.example/entity/Q42";
    assert uri[..|uri| - 1] == "http://kb.example/entity/Q4";
    assert uri[..|uri| - 1][..|uri| - 2] == "http://kb.example/entity/Q";
    assert uri[..|uri| - 1][..|uri| - 2][..|uri| - 3] == "http://kb.example/entity/";
    assert Text.LastSegment("http://kb.example/entity/") == "";
  }
}
