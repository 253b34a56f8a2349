# Legal-agreement chat bot: retrieval plugins

This project models the four plugins (tools) that the legal-agreement chat bot exposes to its
language model, and proves what each one returns and what it does to the shared conversation
history:

- **FindBuyerSellerPlugin** builds a search for the fixed phrase `with copies to or copy to`.
  The request carries the filter string `title eq '<agreement>'`, with the name inserted
  verbatim. The plugin
  renders the passages it gets back.
- **SearchAgreementPlugin** does the same for the user's own question, asking for five results
  instead of three.
- **GetAgreementFileNamePlugin** runs an unfiltered search for the single nearest chunk. It
  records the chunk's title in the history as an assistant turn and returns that title.
- **LoadAgreementPdfPlugin** loads a stored PDF and concatenates the text of its pages. It records
  the text as a tagged assistant turn and returns it under the same tag.

The backends are parameters of the plugin methods:

- The search index is a total function from the request a plugin builds (`SearchRequest`) to a
  `SearchOutcome`: the passages in ranking order, or the message of the exception the search threw.
- The blob store is a total function from (container, blob name) to a `Blob`: either `Absent` or
  `Present` with the text of each page.
- The embedding service is represented by the request's `queryText`: the text whose embedding
  becomes the k-nearest-neighbour vector.

The conversation state is a class, `Conversation.ConversationData`, whose `history` is a
`seq<Turn>`. The two plugins that record context append to it. The two search plugins have no
`modifies` clause, so Dafny's frame rule guarantees that they leave the history as it was on
every path.

Modules, one per source file plus four shared ones:
`Conversation` (turns and the history), `Retrieval` (backend datatypes, the request, its title
filter and an OData string-literal reader), `SearchResults` (the result text shared by the two search plugins), `Seqs` (two slicing facts), `FindBuyerSeller`,
`SearchAgreement`, `GetAgreementFileName` and `LoadAgreementPdf`.

There is no relevance threshold: the file-name plugin takes the first result whatever its score
(src/Plugins/GetAgreementFileNamePlugin.cs:80).

## Model

| member | source | states |
|---|---|---|
| Conversation.ConversationData.Add | src/Plugins/GetAgreementFileNamePlugin.cs:83 | appending a turn puts it last and keeps every earlier turn unchanged and in order |
| Retrieval.TitleFilterInjective | src/Plugins/FindBuyerSellerPlugin.cs:73 | the filter string `title eq '<name>'` holds the name verbatim, so different names give different filter strings |
| Retrieval.ReadPlainLiteral | src/Plugins/SearchAgreementPlugin.cs:70 | read as an OData string literal (where `''` stands for `'`), a quote-free name followed by a closing quote is read back whole |
| Retrieval.ReadShape | src/Plugins/SearchAgreementPlugin.cs:70 | whatever the OData string-literal reader reads is the quote-doubled spelling of its text, then the closing quote, then the rest |
| Retrieval.EscapeLength | src/Plugins/SearchAgreementPlugin.cs:70 | doubling quotes never shortens a name and lengthens every name that contains `'` |
| Retrieval.TitleFilterRestricts | src/Plugins/SearchAgreementPlugin.cs:70 | the whole filter is the single comparison of the title with the name if and only if the name contains no `'` |
| Retrieval.TitleFilterWithDoubledQuote | src/Plugins/FindBuyerSellerPlugin.cs:73 | a name with a doubled quote, `a''b`, gives a well-formed single comparison with another title, `a'b` |
| Retrieval.TitleFilterMalformed | src/Plugins/FindBuyerSellerPlugin.cs:73 | since quotes are not escaped, `O'Brien.pdf` closes the literal after `O` and leaves `Brien.pdf'`, so the filter is not a comparison with the name (that the remainder is malformed follows from OData's filter grammar, which is not modelled) |
| Retrieval.TitleFilterWidened | src/Plugins/SearchAgreementPlugin.cs:70 | since quotes are not escaped, `a' or title ne 'b` reads as the literal `a` followed by ` or title ne 'b'`, so the filter is not a comparison with the name (that it admits other agreements follows from OData's filter grammar, which is not modelled) |
| Retrieval.TitleFilterNarrowed | src/Plugins/FindBuyerSellerPlugin.cs:73 | since quotes are not escaped, `a' and title eq 'b` reads as the literal `a` followed by ` and title eq 'b'`, so the filter is not a comparison with the name (that it matches no agreement follows from OData's filter grammar, which is not modelled) |
| SearchResults.FormatResults | src/Plugins/FindBuyerSellerPlugin.cs:84-95 | the accumulation loop yields the `[SEARCH RESULTS]` banner followed by one Title/Content block per passage, in result order |
| SearchResults.BlocksAppend | src/Plugins/SearchAgreementPlugin.cs:83-91 | the text for a concatenation of result lists is the concatenation of their texts |
| SearchResults.BlockOrder | src/Plugins/FindBuyerSellerPlugin.cs:86-94 | the block of the i-th passage lies exactly between the blocks of the passages before it and those after it |
| SearchResults.FormattedIsNotSentinel | src/Plugins/FindBuyerSellerPlugin.cs:81-84 | a formatted result starts with the banner and is therefore never `No info found.` |
| FindBuyerSeller.FindBuyerSellerPlugin.Request | src/Plugins/FindBuyerSellerPlugin.cs:53-75 | the request embeds the fixed phrase `with copies to or copy to` whatever the agreement, with k = 3, size 3, the `vector` field, exhaustive search, the configured semantic configuration, and the filter string `title eq '<agreement>'` with the name inserted verbatim, which is a single comparison with that name when the name contains no `'` |
| FindBuyerSeller.FindBuyerSellerPlugin.FindInfo | src/Plugins/FindBuyerSellerPlugin.cs:49-104 | a failed search returns its exception message; `No info found.` is returned if and only if the search yields no passage; otherwise the banner plus the passage blocks; the history is not in its frame |
| SearchAgreement.SearchAgreementPlugin.Request | src/Plugins/SearchAgreementPlugin.cs:53-72 | the request embeds the caller's question (not the agreement name), with k = 3, size 5, the `vector` field, exhaustive search, and the filter string `title eq '<agreement>'` with the name inserted verbatim, which is a single comparison with that name when the name contains no `'` |
| SearchAgreement.SearchAgreementPlugin.FindInfo | src/Plugins/SearchAgreementPlugin.cs:49-101 | a failed search returns its exception message; `No info found.` is returned if and only if the search yields no passage; otherwise the banner plus the passage blocks; the history is not in its frame |
| GetAgreementFileName.FileNameTurnRoundTrip | src/Plugins/GetAgreementFileNamePlugin.cs:83 | encoding check: the message `agreement file name is <name>` keeps the whole resolved name (the program never reads it back) |
| GetAgreementFileName.GetAgreementFileNamePlugin.Request | src/Plugins/GetAgreementFileNamePlugin.cs:53-72 | the request embeds the description itself, with k = 1, size 1 and no filter |
| GetAgreementFileName.GetAgreementFileNamePlugin.FindInfo | src/Plugins/GetAgreementFileNamePlugin.cs:49-92 | a failed search returns its message and an empty one returns `No agreement found.`, both with the history unchanged; otherwise the first passage's title is returned, with no score check, and exactly one assistant turn recording it is appended |
| LoadAgreementPdf.ExtractText | src/Plugins/LoadAgreementPdfPlugin.cs:51-56 | the page loop yields the text of all pages in page order with no separators |
| LoadAgreementPdf.ConcatAppend | src/Plugins/LoadAgreementPdfPlugin.cs:53-56 | the text of a document split in two is the text of the first part directly followed by that of the second |
| LoadAgreementPdf.PageOrder | src/Plugins/LoadAgreementPdfPlugin.cs:53-56 | page i's text lies, unseparated, between the text of the earlier pages and that of the later ones |
| LoadAgreementPdf.SameContent | src/Plugins/LoadAgreementPdfPlugin.cs:59-61 | encoding check: the `[ENTIRE PDF CONTENT] ` turn and the `[ENTIRE PDF CONTENT]\n\n` reply carry the same extracted text under their two tags (the program never reads them back) |
| LoadAgreementPdf.LoadAgreementPdfPlugin.GetPdfContent | src/Plugins/LoadAgreementPdfPlugin.cs:35-71 | an absent blob returns `agreement not found.` with the history unchanged (and, by construction, nothing extracted); a present one appends exactly one tagged assistant turn and returns the same text under the tag; zero pages still append a turn and return the bare tag and a blank line |

## Left out

- The agreement name is inserted into the search filter without escaping its quotes. What is proved: the filter is a single comparison with the name exactly when the name contains no `'`, so a name containing `'` never gives that comparison (Retrieval.TitleFilterRestricts). What such a filter then does depends on OData's filter grammar and on the search service, neither of which is modelled. For example: `O'Brien.pdf` leaves a malformed remainder, for which the search fails and its message is returned (Retrieval.TitleFilterMalformed); `a' or title ne 'b` also matches other agreements (Retrieval.TitleFilterWidened); `a' and title eq 'b` matches no agreement, so `No info found.` is returned (Retrieval.TitleFilterNarrowed); `a''b` is a well-formed comparison with another title, `a'b` (Retrieval.TitleFilterWithDoubledQuote).
- The blob store's existence check and download are merged into one call that returns `Absent` or the page texts, so that nothing is downloaded or extracted for an absent blob holds by construction rather than by a contract clause.
- Progress messages and typing indicators sent to the user ("Searching ...", "Loading ...", "Finding the agreement file info...", "... not found.") are transport output and are not modelled.
- Embedding, vector search, semantic ranking and PDF parsing are opaque: the search is a function from the request to an outcome, and a PDF is the text of its pages. Scores, captions and answers are not modelled. The request does not record the constant query type (semantic) or the extractive caption and answer settings.
- That the backend returns at most `size` results is a property of the search service, not of the plugins, so it is not modelled.
- The embedding call sits before the `try` block in the three search plugins, so its failures propagate as exceptions rather than becoming result strings. Loader failures (download, PDF parsing) also propagate. Exception propagation is not modelled.
- Asynchronous execution is modelled as sequential calls.
- The bot (src/Bots/SemanticKernelBot.cs) only registers the plugins and hands the prompt to the language-model library, whose tool-calling loop is not visible, so no orchestration loop or iteration bound is modelled. Prompt formatting lives in a base class that is not part of this model. The prompt filter (src/Filters/PromptFilter.cs) only forwards and logs.
- The plugins' unused client fields are not modelled.
