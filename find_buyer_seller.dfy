/** The plugin that looks up the parties, their law firms and counsel of one agreement. */
module FindBuyerSeller {
  import opened Retrieval
  import opened SearchResults
  import Conversation

  /** The fixed query: the phrase that opens the notice clause naming the parties. */
  const PartiesQuery := "with copies to or copy to"

  class FindBuyerSellerPlugin {
    const conversation: Conversation.ConversationData
    const semanticConfig: string

    constructor (conversation: Conversation.ConversationData, semanticConfig: string)
      ensures this.conversation == conversation && this.semanticConfig == semanticConfig
    {
      this.conversation := conversation;
      this.semanticConfig := semanticConfig;
    }

    /** The search sent for `agreement`: the fixed phrase (whatever the agreement),
        the three nearest chunks, three results, with the filter
        `title eq '<agreement>'`, which restricts the search to that agreement when
        the name contains no `'`. */
    function Request(agreement: string): (r: SearchRequest)
      ensures r.queryText == PartiesQuery
      ensures r.k == 3 && r.size == 3
      ensures r.vectorFields == [VectorField] && r.exhaustive
      ensures r.semanticConfig == semanticConfig
      ensures r.filter == Some(TitleFilter(agreement))
      ensures '\'' !in agreement ==> r.filter.Some? && FilterTitle(r.filter.value) == Some(agreement)
    {
      TitleFilterRestricts(agreement);
      SearchRequest(PartiesQuery, 3, [VectorField], true, semanticConfig, 3, Some(TitleFilter(agreement)))
    }

    /** Runs the search and renders its answer for the model. With no `modifies`
        clause the conversation history is left as it was on every path. */
    method FindInfo(agreement: string, search: SearchRequest -> SearchOutcome) returns (result: string)
      ensures search(Request(agreement)).Failed? ==> result == search(Request(agreement)).message
      ensures search(Request(agreement)).Ok? ==>
        (result == NoInfoFound <==> search(Request(agreement)).passages == [])
      ensures search(Request(agreement)).Ok? && search(Request(agreement)).passages != [] ==>
        result == Banner + Blocks(search(Request(agreement)).passages)
    {
      var outcome := search(Request(agreement));
      match outcome
      case Failed(message) =>
        result := message;
      case Ok(passages) =>
        if |passages| == 0 {
          result := NoInfoFound;
        } else {
          result := FormatResults(passages);
          FormattedIsNotSentinel(passages);
        }
    }
  }
}
