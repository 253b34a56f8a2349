/** The plugin that loads the whole text of an agreement into the conversation. */
module LoadAgreementPdf {
  import opened Retrieval
  import opened Conversation
  import opened Seqs

  /** Returned when no blob of that name exists. */
  const NotFound := "agreement not found."

  /** Marks the loaded text, both in the recorded turn and in the returned string. */
  const PdfTag := "[ENTIRE PDF CONTENT]"

  /** The text of all pages, in page order, with no separator between pages. */
  function Concat(pages: seq<string>): string
    decreases |pages|
  {
    if pages == [] then "" else Concat(pages[..|pages| - 1]) + pages[|pages| - 1]
  }

  /** The extraction loop: appends the text of each page in turn. */
  method ExtractText(pages: seq<string>) returns (content: string)
    ensures content == Concat(pages)
  {
    content := "";
    for i := 0 to |pages|
      invariant content == Concat(pages[..i])
    {
      assert pages[..i + 1][..i] == pages[..i];
      content := content + pages[i];
    }
    assert pages[..|pages|] == pages;
  }

  /** Extracting a document split in two gives the text of the first part followed
      directly by that of the second. */
  lemma {:induction false} ConcatAppend(a: seq<string>, b: seq<string>)
    ensures Concat(a + b) == Concat(a) + Concat(b)
    decreases |b|
  {
    if b == [] {
      assert a + b == a;
    } else {
      var init := b[..|b| - 1];
      DropLast(a, b);
      ConcatAppend(a, init);
    }
  }

  /** Page i's text sits, unseparated, between the text of the pages before it and
      that of the pages after it. */
  lemma PageOrder(pages: seq<string>, i: nat)
    requires i < |pages|
    ensures Concat(pages) == Concat(pages[..i]) + pages[i] + Concat(pages[i + 1..])
  {
    var before, after := pages[..i + 1], pages[i + 1..];
    SplitAt(pages, i + 1);
    ConcatAppend(before, after);
    assert before[..i] == pages[..i];
    assert Concat(before) == Concat(pages[..i]) + pages[i];
  }

  /** The assistant turn that records the loaded text for later turns. */
  function ContentTurn(content: string): Turn
  {
    Turn(Assistant, PdfTag + " " + content)
  }

  /** The string returned to the model for the loaded text. */
  function TaggedReply(content: string): string
  {
    PdfTag + "\n\n" + content
  }

  /** Reads the loaded text back out of a turn. The program never does this; it is
      used only to check that the tagged message encodes the text without loss. */
  function RecordedContent(t: Turn): (c: Option<string>)
    ensures c.Some? ==> t.role == Assistant && |c.value| + |PdfTag| + 1 == |t.message|
  {
    var head := PdfTag + " ";
    if t.role == Assistant && |t.message| >= |head| && t.message[..|head|] == head
    then Some(t.message[|head|..])
    else None
  }

  /** Reads the loaded text back out of a returned string; like RecordedContent,
      used only as an encoding check. */
  function RepliedContent(r: string): (c: Option<string>)
    ensures c.Some? ==> |c.value| + |PdfTag| + 2 == |r|
  {
    var head := PdfTag + "\n\n";
    if |r| >= |head| && r[..|head|] == head then Some(r[|head|..]) else None
  }

  /** Encoding check: the recorded turn and the returned string carry the same text
      under their two spellings of the tag. */
  lemma SameContent(content: string)
    ensures RecordedContent(ContentTurn(content)) == Some(content)
    ensures RepliedContent(TaggedReply(content)) == Some(content)
  {
  }

  class LoadAgreementPdfPlugin {
    const conversation: ConversationData
    const containerName: string

    constructor (conversation: ConversationData, containerName: string)
      ensures this.conversation == conversation && this.containerName == containerName
    {
      this.conversation := conversation;
      this.containerName := containerName;
    }

    /** Loads blob `agreement` of the container. Absent: the not-found sentinel and
        no change. Present: its pages' text, recorded as one tagged assistant turn and
        returned under the same tag. */
    method GetPdfContent(agreement: string, store: (string, string) -> Blob) returns (result: string)
      modifies conversation
      ensures store(containerName, agreement).Absent? ==>
        result == NotFound && conversation.history == old(conversation.history)
      ensures store(containerName, agreement).Present? ==>
        var content := Concat(store(containerName, agreement).pages);
        conversation.history == old(conversation.history) + [ContentTurn(content)] &&
        result == TaggedReply(content) &&
        RepliedContent(result) == RecordedContent(conversation.history[|conversation.history| - 1]) == Some(content)
      ensures store(containerName, agreement) == Present([]) ==>
        result == PdfTag + "\n\n" && |conversation.history| == |old(conversation.history)| + 1
    {
      var blob := store(containerName, agreement);
      match blob
      case Absent =>
        result := NotFound;
      case Present(pages) =>
        var content := ExtractText(pages);
        conversation.Add(ContentTurn(content));
        SameContent(content);
        result := TaggedReply(content);
    }
  }
}
