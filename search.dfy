/**
  The search entry handler on_search_changed: a non-empty query selects its
  first occurrence in the buffer, searched forward from the buffer start,
  comparing characters exactly (case-sensitive, text only). The selection is
  held by the GTK buffer, not by the editor struct, so it is passed in and the
  new selection is returned.
 */
module Search {
  import opened Wrappers

  /** A selection: the insert mark at `start`, the selection bound at `end`. */
  datatype Range = Range(start: nat, end: nat)

  predicate OccursAt(text: string, query: string, i: nat) {
    i + |query| <= |text| && text[i..i + |query|] == query
  }

  /** The first occurrence of `query` in `text` at or after `from`. */
  function FindFrom(text: string, query: string, from: nat): (r: Option<nat>)
    requires from <= |text|
    ensures r.Some? ==> from <= r.value && OccursAt(text, query, r.value)
    ensures r.Some? ==> forall j | from <= j < r.value :: !OccursAt(text, query, j)
    ensures r.None? ==> forall j: nat | from <= j :: !OccursAt(text, query, j)
    decreases |text| - from
  {
    if from + |query| > |text| then None
    else if text[from..from + |query|] == query then Some(from)
    else FindFrom(text, query, from + 1)
  }

  /**
    gtk_text_iter_forward_search from the buffer start: the range of the
    earliest match. The handler only searches for a non-empty query.
   */
  function ForwardSearch(text: string, query: string): (r: Option<Range>)
    requires query != []
    ensures r.Some? ==> r.value.end == r.value.start + |query|
    ensures r.Some? ==> OccursAt(text, query, r.value.start)
    ensures r.Some? ==> forall j: nat | j < r.value.start :: !OccursAt(text, query, j)
    ensures r.None? <==> forall j: nat :: !OccursAt(text, query, j)
  {
    match FindFrom(text, query, 0)
    case None => None
    case Some(i) => Some(Range(i, i + |query|))
  }

  /** The buffer selection after the search entry changed to `query`. */
  function SearchChanged(text: string, query: string, selection: Range): (r: Range)
    ensures query == [] ==> r == selection
    ensures query != [] && (exists j: nat :: OccursAt(text, query, j)) ==>
              OccursAt(text, query, r.start) && r.end == r.start + |query|
              && forall j: nat | j < r.start :: !OccursAt(text, query, j)
    ensures (forall j: nat :: !OccursAt(text, query, j)) ==> r == selection
  {
    if |query| > 0 then
      match ForwardSearch(text, query)
      case Some(found) => found
      case None => selection
    else selection
  }
}
