/** What the plugins send to and receive from their backends. */
module Retrieval {

  datatype Option<+T> = None | Some(value: T)

  /** One indexed chunk of an agreement as the search index returns it. */
  datatype Passage = Passage(title: string, chunk: string)

  /** The answer of the search backend: the results in ranking order, or the
      message of the exception the search raised. */
  datatype SearchOutcome = Ok(passages: seq<Passage>) | Failed(message: string)

  /** The stored agreement: no blob under that name, or a PDF given by the text of its pages. */
  datatype Blob = Absent | Present(pages: seq<string>)

  /** The search options a plugin builds. `queryText` is the text whose embedding
      is the k-nearest-neighbour vector; `k` the neighbour count; `vectorFields` the
      index fields searched; `size` the number of results asked for; `filter` the
      optional equality filter on the index. */
  datatype SearchRequest = SearchRequest(
    queryText: string,
    k: nat,
    vectorFields: seq<string>,
    exhaustive: bool,
    semanticConfig: string,
    size: nat,
    filter: Option<string>)

  /** The one vector field of the index. */
  const VectorField := "vector"

  const TitleFilterPrefix := "title eq '"

  /** The filter string `title eq '<title>'`: the name is inserted verbatim, with
      no escaping of the quotes it may contain. */
  function TitleFilter(title: string): string
  {
    TitleFilterPrefix + title + "'"
  }

  /** Different names give different filter strings. */
  lemma TitleFilterInjective(title: string, other: string)
    ensures TitleFilter(other) == TitleFilter(title) ==> other == title
  {
    if TitleFilter(other) == TitleFilter(title) {
      assert other == TitleFilter(other)[|TitleFilterPrefix|..|TitleFilter(other)| - 1];
    }
  }

  /** An OData string literal after its opening quote: its text, with each doubled
      quote `''` standing for one quote, and what follows its closing quote. */
  datatype Literal = Literal(text: string, rest: string)

  /** Reads an OData string literal from `s`, which starts just after the opening
      quote; None when no closing quote follows. */
  function ReadLiteral(s: string): Option<Literal>
    decreases |s|
  {
    if s == [] then None
    else if s[0] == '\'' then
      if |s| >= 2 && s[1] == '\'' then
        match ReadLiteral(s[2..])
        case None => None
        case Some(lit) => Some(Literal("'" + lit.text, lit.rest))
      else Some(Literal("", s[1..]))
    else
      match ReadLiteral(s[1..])
      case None => None
      case Some(lit) => Some(Literal([s[0]] + lit.text, lit.rest))
  }

  /** The title a filter compares against, when the whole filter is the single
      comparison `title eq '<literal>'`; None for any other filter. */
  function FilterTitle(filter: string): Option<string>
  {
    if |filter| >= |TitleFilterPrefix| && filter[..|TitleFilterPrefix|] == TitleFilterPrefix then
      match ReadLiteral(filter[|TitleFilterPrefix|..])
      case Some(Literal(text, rest)) => if rest == "" then Some(text) else None
      case None => None
    else None
  }

  /** A name with no quote in it is read back whole, up to the quote that follows it,
      provided that quote is not doubled by what comes next. */
  lemma {:induction false} ReadPlainLiteral(name: string, rest: string)
    requires '\'' !in name
    requires rest == [] || rest[0] != '\''
    ensures ReadLiteral(name + "'" + rest) == Some(Literal(name, rest))
    decreases |name|
  {
    var s := name + "'" + rest;
    if name == [] {
      assert s == "'" + rest;
      assert s[1..] == rest;
    } else {
      assert s[1..] == name[1..] + "'" + rest;
      ReadPlainLiteral(name[1..], rest);
      assert [s[0]] + name[1..] == name;
    }
  }

  /** The spelling of `t` inside an OData string literal: each quote doubled. */
  function Escape(t: string): string
    decreases |t|
  {
    if t == [] then "" else (if t[0] == '\'' then "''" else [t[0]]) + Escape(t[1..])
  }

  /** Escaping never shortens a text, and lengthens every text that holds a quote. */
  lemma {:induction false} EscapeLength(t: string)
    ensures |Escape(t)| >= |t|
    ensures '\'' in t ==> |Escape(t)| > |t|
    decreases |t|
  {
    if t != [] {
      EscapeLength(t[1..]);
      assert t == [t[0]] + t[1..];
    }
  }

  /** Escaping a text with one more character in front. */
  lemma EscapeCons(c: char, t: string)
    ensures Escape([c] + t) == (if c == '\'' then "''" else [c]) + Escape(t)
  {
    assert ([c] + t)[1..] == t;
  }

  /** The step of ReadShape for a doubled quote, given the shape of what follows it. */
  lemma ReadShapeDoubled(s: string, lit: Literal, inner: Literal)
    requires |s| >= 2 && s[0] == '\'' && s[1] == '\''
    requires lit == Literal("'" + inner.text, inner.rest)
    requires s[2..] == Escape(inner.text) + "'" + inner.rest
    ensures s == Escape(lit.text) + "'" + lit.rest
  {
    EscapeCons('\'', inner.text);
    assert s == "''" + s[2..];
  }

  /** The step of ReadShape for any other character, given the shape of what follows it. */
  lemma ReadShapeChar(s: string, lit: Literal, inner: Literal)
    requires s != [] && s[0] != '\''
    requires lit == Literal([s[0]] + inner.text, inner.rest)
    requires s[1..] == Escape(inner.text) + "'" + inner.rest
    ensures s == Escape(lit.text) + "'" + lit.rest
  {
    EscapeCons(s[0], inner.text);
    assert s == [s[0]] + s[1..];
  }

  /** Whatever ReadLiteral reads is the escaped spelling of its text, then the
      closing quote, then the rest. */
  lemma {:induction false} ReadShape(s: string, lit: Literal)
    requires ReadLiteral(s) == Some(lit)
    ensures s == Escape(lit.text) + "'" + lit.rest
    decreases |s|
  {
    if s[0] == '\'' {
      if |s| >= 2 && s[1] == '\'' {
        var inner := ReadLiteral(s[2..]).value;
        ReadShape(s[2..], inner);
        ReadShapeDoubled(s, lit, inner);
      } else {
        assert s == "'" + s[1..];
      }
    } else {
      var inner := ReadLiteral(s[1..]).value;
      ReadShape(s[1..], inner);
      ReadShapeChar(s, lit, inner);
    }
  }

  /** The filter is exactly one comparison of the title with the given name if and
      only if the name holds no quote; only then is the search restricted to that
      one agreement. */
  lemma TitleFilterRestricts(title: string)
    ensures FilterTitle(TitleFilter(title)) == Some(title) <==> '\'' !in title
  {
    var f := TitleFilter(title);
    assert f[..|TitleFilterPrefix|] == TitleFilterPrefix;
    assert f[|TitleFilterPrefix|..] == title + "'" + "";
    if '\'' !in title {
      ReadPlainLiteral(title, "");
    } else if FilterTitle(f) == Some(title) {
      var body := f[|TitleFilterPrefix|..];
      assert ReadLiteral(body) == Some(Literal(title, ""));
      ReadShape(body, Literal(title, ""));
      EscapeLength(title);
      assert false;
    }
  }

  /** A doubled quote in a name gives a well-formed single comparison, but with
      another title: `a''b` compares the title with `a'b`. */
  lemma TitleFilterWithDoubledQuote()
    ensures FilterTitle(TitleFilter("a''b")) == Some("a'b")
  {
    var f := TitleFilter("a''b");
    assert f[..|TitleFilterPrefix|] == TitleFilterPrefix;
    var body := f[|TitleFilterPrefix|..];
    assert body == "a''b'";
    assert body[1..] == "''b'";
    assert body[1..][2..] == "b" + "'" + "";
    ReadPlainLiteral("b", "");
    var tail := body[1..];
    assert tail[0] == '\'' && tail[1] == '\'';
    assert ReadLiteral(tail[2..]) == Some(Literal("b", ""));
    assert "'" + "b" == "'b";
    assert ReadLiteral(tail) == Some(Literal("'b", ""));
    assert body[0] == 'a' && [body[0]] + "'b" == "a'b";
    assert ReadLiteral(body) == Some(Literal("a'b", ""));
  }

  /** A quote in a name closes the literal early: `O'Brien.pdf` closes it after `O`
      and leaves `Brien.pdf'`, a malformed filter rather than a comparison with the name. */
  lemma TitleFilterMalformed()
    ensures ReadLiteral(TitleFilter("O'Brien.pdf")[|TitleFilterPrefix|..]) == Some(Literal("O", "Brien.pdf'"))
    ensures FilterTitle(TitleFilter("O'Brien.pdf")) == None
  {
    var f := TitleFilter("O'Brien.pdf");
    assert f[..|TitleFilterPrefix|] == TitleFilterPrefix;
    var body := f[|TitleFilterPrefix|..];
    assert body == "O" + "'" + "Brien.pdf'";
    ReadPlainLiteral("O", "Brien.pdf'");
  }

  /** `a' or title ne 'b` turns the filter into a comparison with `a` or-ed with
      `title ne 'b'`, which admits every agreement not titled `b`. */
  lemma TitleFilterWidened()
    ensures ReadLiteral(TitleFilter("a' or title ne 'b")[|TitleFilterPrefix|..])
      == Some(Literal("a", " or title ne 'b'"))
    ensures FilterTitle(TitleFilter("a' or title ne 'b")) == None
  {
    var f := TitleFilter("a' or title ne 'b");
    assert f[..|TitleFilterPrefix|] == TitleFilterPrefix;
    var body := f[|TitleFilterPrefix|..];
    assert body == "a" + "'" + " or title ne 'b'";
    ReadPlainLiteral("a", " or title ne 'b'");
  }

  /** `a' and title eq 'b` turns the filter into a comparison with `a` and-ed with
      `title eq 'b'`, which no agreement satisfies. */
  lemma TitleFilterNarrowed()
    ensures ReadLiteral(TitleFilter("a' and title eq 'b")[|TitleFilterPrefix|..])
      == Some(Literal("a", " and title eq 'b'"))
    ensures FilterTitle(TitleFilter("a' and title eq 'b")) == None
  {
    var f := TitleFilter("a' and title eq 'b");
    assert f[..|TitleFilterPrefix|] == TitleFilterPrefix;
    var body := f[|TitleFilterPrefix|..];
    assert body == "a" + "'" + " and title eq 'b'";
    ReadPlainLiteral("a", " and title eq 'b'");
  }
}
