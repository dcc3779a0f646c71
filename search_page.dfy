/**
 * The search page: a non-blank query is trimmed and sent; the results
 * replace the shown list only when the search succeeds.
 */
module SearchPage {
  import opened Wrappers
  import opened Text
  import opened Models
  import opened Api

  /** The page's state, one field per `useState`. */
  class SearchPageState {
    var query: string
    var results: seq<Book>
    var searched: bool
    var loading: bool
    var error: Option<string>

    constructor ()
      ensures query == "" && results == [] && !searched && !loading && error == None
    {
      query := "";
      results := [];
      searched := false;
      loading := false;
      error := None;
    }

    /** The input's `onChange`. */
    method SetQuery(value: string)
      modifies this`query
      ensures query == value
    {
      query := value;
    }

    /**
     * `handleSearch`, with `reply` the settled `searchBooks` call. A blank
     * query changes nothing and sends nothing. Otherwise the trimmed query
     * is sent; success replaces the results and marks the search done;
     * failure keeps the results, leaves `searched` false and shows the
     * error. `loading` is false once the call has settled.
     */
    method HandleSearch(reply: Settled<seq<Book>>) returns (sent: Option<string>)
      modifies this`results, this`searched, this`loading, this`error
      ensures IsBlank(query) ==> sent == None && unchanged(this)
      ensures !IsBlank(query) ==>
        && sent == Some(Trim(query)) && sent.value != ""
        && !IsSpace(sent.value[0]) && !IsSpace(sent.value[|sent.value| - 1]) && !loading
        && (reply.Fulfilled? ==> results == reply.data && searched && error == None)
        && (reply.Rejected? ==> results == old(results) && !searched && error == Some(GetErrorMessage(reply.err)))
    {
      var q := query;
      var trimmed := Trim(q);
      TrimEmptyIffBlank(q);
      if trimmed == "" {
        return None;
      }
      loading := true;
      error := None;
      searched := false;

      sent := Some(trimmed);
      match reply {
        case Fulfilled(data) =>
          results := data;
          searched := true;
        case Rejected(err) =>
          error := Some(GetErrorMessage(err));
      }
      loading := false;
    }
  }
}
