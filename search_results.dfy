/** The text the two passage-search plugins hand back to the language model. */
module SearchResults {
  import opened Retrieval
  import opened Seqs

  /** Returned instead of results when the filtered search finds nothing. */
  const NoInfoFound := "No info found."

  /** Heads every non-empty result text. */
  const Banner := "[SEARCH RESULTS]\n\n"

  /** The block for one passage: its title line, then its content and a separator. */
  function Block(p: Passage): string
  {
    "Title: " + p.title + " \n\n" + "Content: " + p.chunk + "\n*****\n\n"
  }

  /** One block per passage, in result order, with nothing between them. */
  function Blocks(ps: seq<Passage>): string
    decreases |ps|
  {
    if ps == [] then "" else Blocks(ps[..|ps| - 1]) + Block(ps[|ps| - 1])
  }

  /** The accumulation loop over the search results: the banner, then the title and
      content of every passage in order. */
  method FormatResults(ps: seq<Passage>) returns (text: string)
    ensures text == Banner + Blocks(ps)
  {
    text := Banner;
    for i := 0 to |ps|
      invariant text == Banner + Blocks(ps[..i])
    {
      assert ps[..i + 1][..i] == ps[..i];
      text := text + "Title: " + ps[i].title + " \n\n";
      text := text + "Content: " + ps[i].chunk + "\n*****\n\n";
    }
    assert ps[..|ps|] == ps;
  }

  /** Formatting a concatenation of result lists concatenates their texts. */
  lemma {:induction false} BlocksAppend(ps: seq<Passage>, qs: seq<Passage>)
    ensures Blocks(ps + qs) == Blocks(ps) + Blocks(qs)
    decreases |qs|
  {
    if qs == [] {
      assert ps + qs == ps;
    } else {
      var init, last := qs[..|qs| - 1], qs[|qs| - 1];
      DropLast(ps, qs);
      assert Blocks(ps + qs) == Blocks(ps + init) + Block(last);
      BlocksAppend(ps, init);
      assert Blocks(qs) == Blocks(init) + Block(last);
    }
  }

  /** The i-th passage's block sits between the blocks of the passages ranked before
      it and those ranked after it: one block per passage, in result order. */
  lemma BlockOrder(ps: seq<Passage>, i: nat)
    requires i < |ps|
    ensures Blocks(ps) == Blocks(ps[..i]) + Block(ps[i]) + Blocks(ps[i + 1..])
  {
    var before, after := ps[..i + 1], ps[i + 1..];
    SplitAt(ps, i + 1);
    BlocksAppend(before, after);
    assert before[..i] == ps[..i];
    assert Blocks(before) == Blocks(ps[..i]) + Block(ps[i]);
  }

  /** A formatted result text starts with the banner, and so it is never the
      empty-result sentinel, whatever the passages are. */
  lemma FormattedIsNotSentinel(ps: seq<Passage>)
    ensures |Banner + Blocks(ps)| >= |Banner| && (Banner + Blocks(ps))[..|Banner|] == Banner
    ensures Banner + Blocks(ps) != NoInfoFound
  {
  }
}
