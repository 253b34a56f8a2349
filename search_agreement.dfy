/** The general-purpose plugin that searches one agreement for the user's question. */
module SearchAgreement {
  import opened Retrieval
  import opened SearchResults
  import Conversation

  class SearchAgreementPlugin {
    const conversation: Conversation.ConversationData
    const semanticConfig: string

    constructor (conversation: Conversation.ConversationData, semanticConfig: string)
      ensures this.conversation == conversation && this.semanticConfig == semanticConfig
    {
      this.conversation := conversation;
      this.semanticConfig := semanticConfig;
    }

    /** The search sent for a question about `agreement`: the question itself is
        embedded, the three nearest chunks, five results, with the filter
        `title eq '<agreement>'`, which restricts the search to that agreement when
        the name contains no `'`. */
    function Request(agreement: string, query: string): (r: SearchRequest)
      ensures r.queryText == query
      ensures r.k == 3 && r.size == 5
      ensures r.vectorFields == [VectorField] && r.exhaustive
      ensures r.semanticConfig == semanticConfig
      ensures r.filter == Some(TitleFilter(agreement))
      ensures '\'' !in agreement ==> r.filter.Some? && FilterTitle(r.filter.value) == Some(agreement)
    {
      TitleFilterRestricts(agreement);
      SearchRequest(query, 3, [VectorField], true, semanticConfig, 5, Some(TitleFilter(agreement)))
    }

    /** Runs the search and renders its answer for the model. With no `modifies`
        clause the conversation history is left as it was on every path. */
    method FindInfo(agreement: string, query: string, search: SearchRequest -> SearchOutcome)
      returns (result: string)
      ensures search(Request(agreement, query)).Failed? ==>
        result == search(Request(agreement, query)).message
      ensures search(Request(agreement, query)).Ok? ==>
        (result == NoInfoFound <==> search(Request(agreement, query)).passages == [])
      ensures search(Request(agreement, query)).Ok? && search(Request(agreement, query)).passages != [] ==>
        result == Banner + Blocks(search(Request(agreement, query)).passages)
    {
      var outcome := search(Request(agreement, query));
      match outcome
      case Failed(message) =>
        result := message;
      case Ok(passages) =>
        if |passages| == 0 {
          result := NoInfoFound;
        } else {
          result := FormatResults(passages);
          FormattedIsNotSentinel(passages);
        }
    }
  }
}
