/**
 The text layout shared by both outbound protocol messages: header lines
 `Name:Value` each ended by CRLF, one empty CRLF line, then the body.
 `Parse` reads that layout back and serves as the reference against which
 the message builders are checked.
 */
module Framing {
  import opened Wrappers

  const Crlf := "\r\n"

  datatype Header = Header(name: string, value: string)

  /** A header that renders to one unambiguous line. */
  predicate WellFormed(h: Header)
  {
    ':' !in h.name && '\r' !in h.name && '\r' !in h.value
  }

  function HeaderLine(h: Header): string
  {
    h.name + ":" + h.value
  }

  function RenderHeaders(hs: seq<Header>): string
  {
    if |hs| == 0 then "" else HeaderLine(hs[0]) + Crlf + RenderHeaders(hs[1..])
  }

  /** A protocol message: the header block, a blank line, the body. */
  function Render(hs: seq<Header>, body: string): string
  {
    RenderHeaders(hs) + Crlf + body
  }

  lemma {:induction false} RenderHeadersSnoc(hs: seq<Header>, h: Header)
    ensures RenderHeaders(hs + [h]) == RenderHeaders(hs) + (HeaderLine(h) + Crlf)
  {
    if |hs| == 0 {
      assert hs + [h] == [h];
      assert RenderHeaders([h]) == HeaderLine(h) + Crlf + RenderHeaders([]);
    } else {
      assert (hs + [h])[1..] == hs[1..] + [h];
      RenderHeadersSnoc(hs[1..], h);
      var x := HeaderLine(hs[0]) + Crlf;
      assert RenderHeaders(hs + [h]) == x + (RenderHeaders(hs[1..]) + (HeaderLine(h) + Crlf));
    }
  }

  /** Appending one header line to text already rendered. */
  lemma AppendLine(acc: string, n: string, v: string)
    ensures acc + (HeaderLine(Header(n, v)) + Crlf) == acc + n + ":" + v + Crlf
  {
  }

  /** Appending header `h` extends the rendered block by its line. */
  lemma RenderHeadersExtend(hs: seq<Header>, n: string, v: string)
    ensures RenderHeaders(hs + [Header(n, v)]) == RenderHeaders(hs) + n + ":" + v + Crlf
  {
    RenderHeadersSnoc(hs, Header(n, v));
    AppendLine(RenderHeaders(hs), n, v);
  }

  lemma RenderOne(n: string, v: string)
    ensures RenderHeaders([Header(n, v)]) == n + ":" + v + Crlf
  {
    assert RenderHeaders([Header(n, v)]) == HeaderLine(Header(n, v)) + Crlf + RenderHeaders([]);
  }

  /** A three-header message spelled out line by line. */
  lemma RenderThree(n0: string, v0: string, n1: string, v1: string, n2: string, v2: string, body: string)
    ensures Render([Header(n0, v0), Header(n1, v1), Header(n2, v2)], body)
         == n0 + ":" + v0 + Crlf + n1 + ":" + v1 + Crlf + n2 + ":" + v2 + Crlf + Crlf + body
  {
    var h0, h1, h2 := Header(n0, v0), Header(n1, v1), Header(n2, v2);
    RenderOne(n0, v0);
    RenderHeadersExtend([h0], n1, v1);
    assert [h0] + [h1] == [h0, h1];
    RenderHeadersExtend([h0, h1], n2, v2);
    assert [h0, h1] + [h2] == [h0, h1, h2];
  }

  /** A four-header message spelled out line by line. */
  lemma RenderFour(n0: string, v0: string, n1: string, v1: string, n2: string, v2: string,
                   n3: string, v3: string, body: string)
    ensures Render([Header(n0, v0), Header(n1, v1), Header(n2, v2), Header(n3, v3)], body)
         == n0 + ":" + v0 + Crlf + n1 + ":" + v1 + Crlf + n2 + ":" + v2 + Crlf + n3 + ":" + v3 + Crlf + Crlf + body
  {
    var h0, h1, h2, h3 := Header(n0, v0), Header(n1, v1), Header(n2, v2), Header(n3, v3);
    RenderOne(n0, v0);
    RenderHeadersExtend([h0], n1, v1);
    assert [h0] + [h1] == [h0, h1];
    RenderHeadersExtend([h0, h1], n2, v2);
    assert [h0, h1] + [h2] == [h0, h1, h2];
    RenderHeadersExtend([h0, h1, h2], n3, v3);
    assert [h0, h1, h2] + [h3] == [h0, h1, h2, h3];
  }

  /** Splits off the text before the first CRLF. */
  function SplitLine(s: string): (r: Option<(string, string)>)
    ensures r.Some? ==> r.value.0 + Crlf + r.value.1 == s
    ensures r.None? ==> forall i | 0 <= i < |s| - 1 :: !(s[i] == '\r' && s[i + 1] == '\n')
    decreases |s|
  {
    if |s| < 2 then None
    else if s[0] == '\r' && s[1] == '\n' then Some(("", s[2..]))
    else
      match SplitLine(s[1..])
      case None => None
      case Some(split) => Some(([s[0]] + split.0, split.1))
  }

  /** Splits a header line at its first colon. */
  function SplitHeader(line: string): (r: Option<Header>)
    ensures r.Some? ==> HeaderLine(r.value) == line && ':' !in r.value.name
    ensures r.None? ==> ':' !in line
    decreases |line|
  {
    if |line| == 0 then None
    else if line[0] == ':' then Some(Header("", line[1..]))
    else
      match SplitHeader(line[1..])
      case None => None
      case Some(h) => Some(Header([line[0]] + h.name, h.value))
  }

  /** Reads a message back into its header list and body. */
  function Parse(s: string): Option<(seq<Header>, string)>
    decreases |s|
  {
    match SplitLine(s)
    case None => None
    case Some(split) =>
      if split.0 == "" then Some(([], split.1))
      else
        match SplitHeader(split.0)
        case None => None
        case Some(h) =>
          match Parse(split.1)
          case None => None
          case Some(rest) => Some(([h] + rest.0, rest.1))
  }

  lemma {:induction false} SplitLineOf(line: string, rest: string)
    requires '\r' !in line
    ensures SplitLine(line + Crlf + rest) == Some((line, rest))
    decreases |line|
  {
    if |line| > 0 {
      assert (line + Crlf + rest)[1..] == line[1..] + Crlf + rest;
      SplitLineOf(line[1..], rest);
      assert [line[0]] + line[1..] == line;
    } else {
      assert line + Crlf + rest == Crlf + rest;
    }
  }

  lemma {:induction false} SplitHeaderOf(name: string, value: string)
    requires ':' !in name
    ensures SplitHeader(name + ":" + value) == Some(Header(name, value))
    decreases |name|
  {
    if |name| > 0 {
      assert (name + ":" + value)[1..] == name[1..] + ":" + value;
      SplitHeaderOf(name[1..], value);
      assert [name[0]] + name[1..] == name;
    } else {
      assert name + ":" + value == ":" + value;
    }
  }

  /** Rendering then parsing gives back the headers, in order, and the body. */
  lemma {:induction false} ParseRender(hs: seq<Header>, body: string)
    requires forall i | 0 <= i < |hs| :: WellFormed(hs[i])
    ensures Parse(Render(hs, body)) == Some((hs, body))
    decreases |hs|
  {
    if |hs| == 0 {
      SplitLineOf("", body);
      assert Render(hs, body) == "" + Crlf + body;
    } else {
      var h := hs[0];
      var line := HeaderLine(h);
      assert WellFormed(h);
      assert '\r' !in line;
      assert Render(hs, body) == line + Crlf + Render(hs[1..], body);
      SplitLineOf(line, Render(hs[1..], body));
      SplitHeaderOf(h.name, h.value);
      ParseRender(hs[1..], body);
      assert [h] + hs[1..] == hs;
    }
  }
}
