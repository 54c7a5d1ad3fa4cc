/** What the markup queries return, taken as given: a query result is the list of
    texts or attribute values it extracts, and a container query that may be missing
    altogether is an optional list. */
module Selectors {

  import opened Wrappers

  /** The result of a container query: None when there is no selector at all. */
  type Selection = Option<seq<string>>

  /** `extract_first()`: the first value, or None. */
  function ExtractFirst(values: seq<string>): (r: Option<string>)
    ensures r.None? <==> values == []
    ensures r.Some? ==> r.value == values[0]
  {
    if values == [] then None else Some(values[0])
  }
}
