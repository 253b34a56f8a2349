/** The plugin that resolves a description of an agreement to its file name. */
module GetAgreementFileName {
  import opened Retrieval
  import opened Conversation

  /** Returned when the search finds no chunk at all. */
  const NoAgreementFound := "No agreement found."

  const FileNamePrefix := "agreement file name is "

  /** The assistant turn that records a resolved file name for later turns. */
  function FileNameTurn(filename: string): Turn
  {
    Turn(Assistant, FileNamePrefix + filename)
  }

  /** Reads a file name back out of a turn. The program never does this; it is used
      only to check that the recorded message encodes the name without loss. */
  function RecordedFileName(t: Turn): (f: Option<string>)
    ensures f.Some? ==> t.role == Assistant
  {
    if t.role == Assistant && |t.message| >= |FileNamePrefix| && t.message[..|FileNamePrefix|] == FileNamePrefix
    then Some(t.message[|FileNamePrefix|..])
    else None
  }

  /** Encoding check: the recorded message keeps the whole file name. */
  lemma FileNameTurnRoundTrip(filename: string)
    ensures RecordedFileName(FileNameTurn(filename)) == Some(filename)
  {
  }

  class GetAgreementFileNamePlugin {
    const conversation: ConversationData
    const semanticConfig: string

    constructor (conversation: ConversationData, semanticConfig: string)
      ensures this.conversation == conversation && this.semanticConfig == semanticConfig
    {
      this.conversation := conversation;
      this.semanticConfig := semanticConfig;
    }

    /** The search sent for a description: the description itself is embedded, the
        single nearest chunk, one result, over the whole index (no filter). */
    function Request(agreement: string): (r: SearchRequest)
      ensures r.queryText == agreement
      ensures r.k == 1 && r.size == 1
      ensures r.vectorFields == [VectorField] && r.exhaustive
      ensures r.semanticConfig == semanticConfig
      ensures r.filter == None
    {
      SearchRequest(agreement, 1, [VectorField], true, semanticConfig, 1, None)
    }

    /** Resolves the file name: the title of the first result, whatever its score,
        recorded in the history as one assistant turn. A failed or empty search
        leaves the history as it was. */
    method FindInfo(agreement: string, search: SearchRequest -> SearchOutcome) returns (result: string)
      modifies conversation
      ensures search(Request(agreement)).Failed? ==>
        result == search(Request(agreement)).message && conversation.history == old(conversation.history)
      ensures search(Request(agreement)).Ok? && search(Request(agreement)).passages == [] ==>
        result == NoAgreementFound && conversation.history == old(conversation.history)
      ensures search(Request(agreement)).Ok? && search(Request(agreement)).passages != [] ==>
        result == search(Request(agreement)).passages[0].title &&
        conversation.history == old(conversation.history) + [FileNameTurn(result)] &&
        RecordedFileName(conversation.history[|conversation.history| - 1]) == Some(result)
    {
      var outcome := search(Request(agreement));
      match outcome
      case Failed(message) =>
        result := message;
      case Ok(passages) =>
        if |passages| == 0 {
          result := NoAgreementFound;
        } else {
          var filename := passages[0].title;
          conversation.Add(FileNameTurn(filename));
          FileNameTurnRoundTrip(filename);
          result := filename;
        }
    }
  }
}
