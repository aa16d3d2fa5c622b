/** The parser undoes the printer: a request printed with a decimal Content-Length is recovered from its bytes however
    they are cut into chunks. */
module HttpRoundTrip {
  import opened Bits
  import opened Common
  import opened Decimal
  import opened HttpSim

  const CONTENT_LENGTH := "Content-Length"

  type Header = (string, string)

  /** Every character fits into a byte. */
  predicate IsByteText(s: string) {
    forall i :: 0 <= i < |s| ==> s[i] as int < 256
  }

  function Encode(s: string): (r: seq<byte>)
    requires IsByteText(s)
    ensures |r| == |s|
    ensures forall i :: 0 <= i < |s| ==> r[i] as int == s[i] as int
  {
    seq(|s|, i requires 0 <= i < |s| => s[i] as int as byte)
  }

  function HeaderLines(headers: seq<Header>): string {
    if headers == [] then ""
    else headers[0].0 + ": " + headers[0].1 + "\r\n" + HeaderLines(headers[1..])
  }

  /** Request line, headers, and the empty line that ends them. */
  function Head(method_: string, uri: string, version: string, headers: seq<Header>): string {
    method_ + " " + uri + " " + version + "\r\n" + HeaderLines(headers) + "\r\n"
  }

  /** Characters that the parser simply adds to the token of a state. */
  predicate Joins(state: HttpState, c: char) {
    match state
    case Method => c != ' '
    case Uri => c != ' '
    case Version => c != '\r' && c != '\n'
    case HeaderKey => c != '\r' && c != ':'
    case HeaderValue => c != '\r'
    case _ => false
  }

  /** A text that contains no delimiter of a state. */
  predicate IsSafe(state: HttpState, s: string) {
    IsByteText(s) && forall i :: 0 <= i < |s| ==> Joins(state, s[i])
  }

  predicate IsSafeHeader(h: Header) {
    IsSafe(HeaderKey, h.0) && IsSafe(HeaderValue, h.1) && (h.1 != "" ==> h.1[0] != ' ')
  }

  predicate DistinctKeys(headers: seq<Header>) {
    forall i, j :: 0 <= i < j < |headers| ==> headers[i].0 != headers[j].0
  }

  function Put(m: map<string, string>, headers: seq<Header>): map<string, string>
    decreases headers
  {
    if headers == [] then m else Put(m[headers[0].0 := headers[0].1], headers[1..])
  }

  predicate HasKey(headers: seq<Header>, k: string) {
    exists i :: 0 <= i < |headers| && headers[i].0 == k
  }

  lemma {:induction false} PutKeys(m: map<string, string>, headers: seq<Header>, k: string)
    ensures k in Put(m, headers) <==> k in m || HasKey(headers, k)
    ensures !HasKey(headers, k) && k in m ==> Put(m, headers)[k] == m[k]
    decreases headers
  {
    if headers != [] {
      var h, rest := headers[0], headers[1..];
      PutKeys(m[h.0 := h.1], rest, k);
      if i :| 0 <= i < |headers| && headers[i].0 == k && i > 0 {
        assert rest[i - 1].0 == k;
      }
      if i :| 0 <= i < |rest| && rest[i].0 == k {
        assert headers[i + 1].0 == k;
      }
    }
  }

  /** With distinct keys the map holds exactly the listed headers. */
  lemma {:induction false} PutHoldsAll(m: map<string, string>, headers: seq<Header>, i: nat)
    requires DistinctKeys(headers) && i < |headers|
    ensures headers[i].0 in Put(m, headers) && Put(m, headers)[headers[i].0] == headers[i].1
    decreases headers
  {
    var h, rest := headers[0], headers[1..];
    var m' := m[h.0 := h.1];
    if i > 0 {
      assert rest[i - 1] == headers[i];
      PutHoldsAll(m', rest, i - 1);
    } else {
      assert forall j :: 0 <= j < |rest| ==> rest[j] == headers[j + 1];
      PutKeys(m', rest, h.0);
    }
  }

  function FeedText(p: Parser, s: string): Parser
    requires IsByteText(s)
  {
    Feed(p, Encode(s))
  }

  /** Feeding the text takes the parser from `p` to `q`. */
  predicate Leads(p: Parser, s: string, q: Parser) {
    IsByteText(s) && FeedText(p, s) == q
  }

  lemma Chain(p: Parser, a: string, q: Parser, b: string, r: Parser)
    requires Leads(p, a, q) && Leads(q, b, r)
    ensures Leads(p, a + b, r)
  {
    assert Encode(a + b) == Encode(a) + Encode(b);
    FeedTwo(p, Encode(a), Encode(b));
  }

  lemma LeadsByChar(p: Parser, c: char)
    requires c as int < 256
    ensures Leads(p, [c], Step(p, c as int as byte))
  {
    var b := c as int as byte;
    assert Encode([c]) == [b];
    assert Feed(p, [b]) == Feed(Step(p, b), [b][1..]);
    assert [b][1..] == [];
  }

  lemma LeadsNowhere(p: Parser)
    ensures Leads(p, "", p)
  {
    assert Encode("") == [];
  }

  lemma JoinsToken(p: Parser, c: char)
    requires c as int < 256 && Joins(p.state, c) && (p.state == HeaderValue && c == ' ' ==> p.token != "")
    ensures Step(p, c as int as byte) == p.(token := p.token + [c])
  {
  }

  /** A safe text is added to the token. */
  lemma {:induction false} LeadsByToken(p: Parser, s: string)
    requires IsSafe(p.state, s) && (p.state == HeaderValue && s != "" && s[0] == ' ' ==> p.token != "")
    ensures Leads(p, s, p.(token := p.token + s))
    decreases s
  {
    hide Leads, Step;
    if s == "" {
      LeadsNowhere(p);
      assert p.token + s == p.token;
    } else {
      var c, rest := s[0], s[1..];
      var q := p.(token := p.token + [c]);
      LeadsByChar(p, c);
      JoinsToken(p, c);
      LeadsByToken(q, rest);
      Chain(p, [c], q, rest, q.(token := q.token + rest));
      assert [c] + rest == s;
      assert q.token + rest == p.token + s;
    }
  }

  /** A safe text fed to an empty token is the token. */
  lemma LeadsByFreshToken(p: Parser, s: string)
    requires p.token == "" && IsSafe(p.state, s) && (p.state == HeaderValue && s != "" ==> s[0] != ' ')
    ensures Leads(p, s, p.(token := s))
  {
    LeadsByToken(p, s);
    assert "" + s == s;
  }

  lemma {:induction false} DigitsLead(s: string)
    requires IsNumeral(s)
    ensures LeadingDigits(s) == s
  {
    if s != "" {
      DigitsLead(s[1..]);
      assert IsDigit(s[0]);
    }
  }

  /** The parser reads a printed length back. */
  lemma PrintedLength(n: nat)
    requires n < WORD64
    ensures ParseUnsigned(Print(n)) == Some(n)
  {
    var s := Print(n);
    assert IsDigit(s[0]);
    DigitsLead(s);
  }

  /** The parser after a header line that is not malformed. */
  function WithHeader(p: Parser, h: Header): Parser
    requires h.0 == CONTENT_LENGTH ==> ParseUnsigned(h.1).Some?
  {
    p.(request := p.request.(headers := p.request.headers[h.0 := h.1]),
       contentLength := if h.0 == CONTENT_LENGTH then ParseUnsigned(h.1).value else p.contentLength)
  }

  ghost predicate AtHeaderStart(p: Parser) {
    p.state == HeaderKey && p.token == "" && p.key == ""
  }

  /** A header line is entered into the map, and sets the content length if it is that header. */
  lemma LeadsByHeader(p: Parser, h: Header)
    requires AtHeaderStart(p) && IsSafeHeader(h)
    requires h.0 == CONTENT_LENGTH ==> ParseUnsigned(h.1).Some?
    ensures Leads(p, h.0 + ": " + h.1 + "\r\n", WithHeader(p, h)) && AtHeaderStart(WithHeader(p, h))
  {
    hide ParseUnsigned, Leads, IsSafe;
    var p1 := p.(token := h.0);
    var p2 := p.(state := HeaderValue, key := h.0);
    var p3 := p2.(token := h.1);
    var p4 := p3.(state := ExpectValueLF);
    var p5 := WithHeader(p, h);
    LeadsByFreshToken(p, h.0);
    LeadsByChar(p1, ':');
    LeadsByChar(p2, ' ');
    LeadsByFreshToken(p2, h.1);
    LeadsByChar(p3, '\r');
    LeadsByChar(p4, '\n');
    hide Step;
    Chain(p2, " ", p2, h.1, p3);
    Chain(p3, "\r", p4, "\n", p5);
    Chain(p1, ":", p2, " " + h.1, p3);
    Chain(p, h.0, p1, ":" + (" " + h.1), p3);
    Chain(p, h.0 + (":" + (" " + h.1)), p3, "\r" + "\n", p5);
    assert h.0 + (":" + (" " + h.1)) + ("\r" + "\n") == h.0 + ": " + h.1 + "\r\n";
  }

  /** Every Content-Length header holds a number. */
  predicate LengthsParse(headers: seq<Header>) {
    forall i :: 0 <= i < |headers| && headers[i].0 == CONTENT_LENGTH ==> ParseUnsigned(headers[i].1).Some?
  }

  predicate SafeHeaders(headers: seq<Header>) {
    forall i :: 0 <= i < |headers| ==> IsSafeHeader(headers[i])
  }

  /** The content length after some header lines: that of the last such header. */
  function LengthAfter(n: nat, headers: seq<Header>): nat
    requires LengthsParse(headers)
    decreases headers
  {
    if headers == [] then n
    else
      assert LengthsParse(headers[1..]);
      LengthAfter(if headers[0].0 == CONTENT_LENGTH then ParseUnsigned(headers[0].1).value else n, headers[1..])
  }

  lemma {:induction false} LeadsByHeaders(p: Parser, headers: seq<Header>)
    requires AtHeaderStart(p) && SafeHeaders(headers) && LengthsParse(headers)
    ensures Leads(p, HeaderLines(headers),
      p.(request := p.request.(headers := Put(p.request.headers, headers)),
        contentLength := LengthAfter(p.contentLength, headers)))
    decreases headers
  {
    hide Leads, ParseUnsigned, IsSafeHeader;
    if headers == [] {
      LeadsNowhere(p);
    } else {
      var h, rest := headers[0], headers[1..];
      var q := WithHeader(p, h);
      LeadsByHeader(p, h);
      LeadsByHeaders(q, rest);
      Chain(p, h.0 + ": " + h.1 + "\r\n", q, HeaderLines(rest),
        q.(request := q.request.(headers := Put(q.request.headers, rest)),
          contentLength := LengthAfter(q.contentLength, rest)));
    }
  }

  /** A request the printer can print: no part contains a delimiter of its place, the header keys are distinct, and one
      header is the decimal length of the body. */
  ghost predicate Printable(r: HttpRequest, headers: seq<Header>) {
    && IsSafe(Method, r.method_) && IsSafe(Uri, r.uri) && IsSafe(Version, r.version)
    && SafeHeaders(headers) && DistinctKeys(headers) && |r.body| < WORD64
    && (CONTENT_LENGTH, Print(|r.body|)) in headers
    && r.headers == Put(map[], headers)
  }

  /** The head without its last character. */
  function OpenHead(r: HttpRequest, headers: seq<Header>): string {
    r.method_ + " " + r.uri + " " + r.version + "\r\n" + HeaderLines(headers) + "\r"
  }

  /** The bytes of a printed request. */
  function Wire(r: HttpRequest, headers: seq<Header>): seq<byte>
    requires IsByteText(OpenHead(r, headers))
  {
    Encode(OpenHead(r, headers)) + [10] + r.body
  }

  /** The printed bytes are the head as text followed by the body. */
  lemma WireIsHeadAndBody(r: HttpRequest, headers: seq<Header>)
    requires IsByteText(OpenHead(r, headers))
    ensures IsByteText(Head(r.method_, r.uri, r.version, headers))
    ensures Wire(r, headers) == Encode(Head(r.method_, r.uri, r.version, headers)) + r.body
  {
    var open := OpenHead(r, headers);
    assert Head(r.method_, r.uri, r.version, headers) == open + "\n";
    assert Encode(open + "\n") == Encode(open) + [10];
  }

  lemma {:induction false} LengthIsSet(n: nat, headers: seq<Header>, i: nat)
    requires LengthsParse(headers) && DistinctKeys(headers) && i < |headers| && headers[i].0 == CONTENT_LENGTH
    ensures LengthAfter(n, headers) == ParseUnsigned(headers[i].1).value
    decreases headers
  {
    hide ParseUnsigned;
    var rest := headers[1..];
    if i == 0 {
      LengthStays(ParseUnsigned(headers[0].1).value, rest);
    } else {
      assert rest[i - 1] == headers[i];
      assert headers[0].0 != headers[i].0;
      LengthIsSet(n, rest, i - 1);
    }
  }

  lemma {:induction false} LengthStays(n: nat, headers: seq<Header>)
    requires LengthsParse(headers) && forall i :: 0 <= i < |headers| ==> headers[i].0 != CONTENT_LENGTH
    ensures LengthAfter(n, headers) == n
    decreases headers
  {
    hide ParseUnsigned;
    if headers != [] {
      LengthStays(n, headers[1..]);
    }
  }

  lemma PrintableLengths(r: HttpRequest, headers: seq<Header>)
    requires Printable(r, headers)
    ensures LengthsParse(headers) && LengthAfter(0, headers) == |r.body|
  {
    PrintedLength(|r.body|);
    hide ParseUnsigned, IsSafe, SafeHeaders;
    var i :| 0 <= i < |headers| && headers[i] == (CONTENT_LENGTH, Print(|r.body|));
    LengthIsSet(0, headers, i);
  }

  /** The parser after the head up to its last carriage return. */
  function BeforeBody(r: HttpRequest): Parser {
    Parser(ExpectBodyLF, HttpRequest(r.method_, r.uri, r.version, r.headers, []), "", "", |r.body|, 0)
  }

  /** The parser at the first header. */
  function BeforeHeaders(r: HttpRequest): Parser {
    Parser(HeaderKey, HttpRequest(r.method_, r.uri, r.version, map[], []), "", "", 0, 0)
  }

  lemma LeadsByRequestLine(r: HttpRequest)
    requires IsSafe(Method, r.method_) && IsSafe(Uri, r.uri) && IsSafe(Version, r.version)
    ensures Leads(READY, r.method_ + " " + r.uri + " " + r.version + "\r\n", BeforeHeaders(r))
  {
    hide Leads, IsSafe;
    var p1 := READY.(token := r.method_);
    var p2 := READY.(request := EMPTY_REQUEST.(method_ := r.method_), state := Uri);
    var p3 := p2.(token := r.uri);
    var p4 := p2.(request := p2.request.(uri := r.uri), state := Version);
    var p5 := p4.(token := r.version);
    var p6 := BeforeHeaders(r);
    LeadsByFreshToken(READY, r.method_);
    LeadsByChar(p1, ' ');
    LeadsByFreshToken(p2, r.uri);
    LeadsByChar(p3, ' ');
    LeadsByFreshToken(p4, r.version);
    LeadsByChar(p5, '\r');
    LeadsByChar(p5, '\n');
    Chain(READY, r.method_, p1, " ", p2);
    Chain(READY, r.method_ + " ", p2, r.uri, p3);
    Chain(READY, r.method_ + " " + r.uri, p3, " ", p4);
    Chain(READY, r.method_ + " " + r.uri + " ", p4, r.version, p5);
    Chain(p5, "\r", p5, "\n", p6);
    Chain(READY, r.method_ + " " + r.uri + " " + r.version, p5, "\r" + "\n", p6);
    assert r.method_ + " " + r.uri + " " + r.version + ("\r" + "\n") ==
      r.method_ + " " + r.uri + " " + r.version + "\r\n";
  }

  lemma LeadsByOpenHead(r: HttpRequest, headers: seq<Header>)
    requires Printable(r, headers)
    ensures Leads(READY, OpenHead(r, headers), BeforeBody(r))
  {
    PrintableLengths(r, headers);
    LeadsByRequestLine(r);
    hide Leads, IsSafe, ParseUnsigned, LengthsParse, IsSafeHeader, Print;
    var line := r.method_ + " " + r.uri + " " + r.version + "\r\n";
    var p := BeforeHeaders(r);
    var q := p.(request := p.request.(headers := r.headers), contentLength := |r.body|);
    LeadsByHeaders(p, headers);
    Chain(READY, line, p, HeaderLines(headers), q);
    LeadsByChar(q, '\r');
    Chain(READY, line + HeaderLines(headers), q, "\r", BeforeBody(r));
  }

  /** Body bytes short of the content length are collected. */
  lemma {:induction false} FeedBody(p: Parser, body: seq<byte>)
    requires p.state == Body && p.bodyRead + |body| < p.contentLength
    ensures Feed(p, body) == p.(request := p.request.(body := p.request.body + body), bodyRead := p.bodyRead + |body|)
    decreases body
  {
    if body == [] {
      assert p.request.body + [] == p.request.body;
    } else {
      FeedBody(Step(p, body[0]), body[1..]);
      assert p.request.body + [body[0]] + body[1..] == p.request.body + body;
    }
  }

  /** Once complete, the parser ignores everything. */
  lemma {:induction false} CompleteStays(p: Parser, bytes: seq<byte>)
    requires p.state == Complete
    ensures Feed(p, bytes) == p
    decreases bytes
  {
    if bytes != [] {
      CompleteStays(p, bytes[1..]);
    }
  }

  /** What follows the head: a line feed and the body. */
  lemma AfterHead(p: Parser, body: seq<byte>)
    requires p.state == ExpectBodyLF && p.contentLength == |body| && p.bodyRead == 0 && p.request.body == []
    ensures var tail := [10] + body;
      && Feed(p, tail[..|tail| - 1]).state != Complete
      && Feed(p, tail).state == Complete && Feed(p, tail).request == p.request.(body := body)
  {
    hide Feed;
    var tail := [10] + body;
    var none: seq<byte> := [];
    FeedSnoc(p, none, 10);
    FeedNothing(p);
    assert none + [10] == [10];
    if body == [] {
      assert tail == [10] && tail[..|tail| - 1] == none;
    } else {
      var front, last := body[..|body| - 1], body[|body| - 1];
      assert tail[..|tail| - 1] == [10] + front && tail == [10] + front + [last];
      FeedTwo(p, [10], front);
      FeedBody(p.(state := Body), front);
      FeedSnoc(p, [10] + front, last);
      assert [] + front + [last] == body;
    }
  }

  lemma FeedNothing(p: Parser)
    ensures Feed(p, []) == p
  {
  }

  /** The parser one byte before the end of the request is not complete, and at the end it holds the request. */
  lemma FeedWire(r: HttpRequest, headers: seq<Header>)
    requires Printable(r, headers)
    ensures IsByteText(OpenHead(r, headers))
    ensures var wire := Wire(r, headers);
      && wire != [] && Feed(READY, wire[..|wire| - 1]).state != Complete
      && Feed(READY, wire).state == Complete && Feed(READY, wire).request == r
  {
    LeadsByOpenHead(r, headers);
    hide Printable, Feed, Encode, OpenHead, Step;
    var head, tail := Encode(OpenHead(r, headers)), [10] + r.body;
    var wire := Wire(r, headers);
    assert wire == head + tail && wire[..|wire| - 1] == head + tail[..|tail| - 1];
    FeedTwo(READY, head, tail);
    FeedTwo(READY, head, tail[..|tail| - 1]);
    AfterHead(BeforeBody(r), r.body);
  }

  /** No proper prefix of a printed request completes the parser. */
  lemma PrefixIncomplete(r: HttpRequest, headers: seq<Header>, n: nat)
    requires Printable(r, headers) && IsByteText(OpenHead(r, headers)) && n <= |Wire(r, headers)|
    ensures Feed(READY, Wire(r, headers)[..n]).state == Complete <==> n == |Wire(r, headers)|
  {
    FeedWire(r, headers);
    var wire := Wire(r, headers);
    hide Feed, Encode, OpenHead, Wire, Printable;
    if n == |wire| {
      assert wire[..n] == wire;
    } else {
      assert wire[..|wire| - 1] == wire[..n] + wire[n..|wire| - 1];
      FeedTwo(READY, wire[..n], wire[n..|wire| - 1]);
      if Feed(READY, wire[..n]).state == Complete {
        CompleteStays(Feed(READY, wire[..n]), wire[n..|wire| - 1]);
      }
    }
  }

  function Join(chunks: seq<seq<byte>>): seq<byte> {
    if chunks == [] then [] else Join(chunks[..|chunks| - 1]) + chunks[|chunks| - 1]
  }

  /** The parser fed chunk by chunk. */
  function FeedChunks(p: Parser, chunks: seq<seq<byte>>): Parser {
    if chunks == [] then p else Feed(FeedChunks(p, chunks[..|chunks| - 1]), chunks[|chunks| - 1])
  }

  /** Only the bytes matter, not where they are cut. */
  lemma {:induction false} CutsDoNotMatter(p: Parser, chunks: seq<seq<byte>>)
    ensures FeedChunks(p, chunks) == Feed(p, Join(chunks))
  {
    if chunks != [] {
      var front := chunks[..|chunks| - 1];
      CutsDoNotMatter(p, front);
      FeedTwo(p, Join(front), chunks[|chunks| - 1]);
    }
  }

  lemma {:induction false} JoinIsPrefix(chunks: seq<seq<byte>>, k: nat)
    requires k <= |chunks|
    ensures Join(chunks[..k]) <= Join(chunks)
  {
    if k == |chunks| {
      assert chunks[..k] == chunks;
    } else {
      var front := chunks[..|chunks| - 1];
      JoinIsPrefix(front, k);
      assert front[..k] == chunks[..k];
    }
  }

  /** Fragmentation. However a printed request is cut into chunks, the parser reports completion after a chunk exactly
      when all bytes have arrived, and then holds the request. */
  lemma AnyFragmentation(r: HttpRequest, headers: seq<Header>, chunks: seq<seq<byte>>, k: nat)
    requires Printable(r, headers) && IsByteText(OpenHead(r, headers))
    requires Join(chunks) == Wire(r, headers) && k <= |chunks|
    ensures FeedChunks(READY, chunks[..k]).state == Complete <==> Join(chunks[..k]) == Wire(r, headers)
    ensures FeedChunks(READY, chunks).state == Complete && FeedChunks(READY, chunks).request == r
  {
    hide FeedChunks, Feed, Join, Wire, OpenHead, Printable, Encode;
    CutsDoNotMatter(READY, chunks[..k]);
    CutsDoNotMatter(READY, chunks);
    JoinIsPrefix(chunks, k);
    FeedWire(r, headers);
    var n := |Join(chunks[..k])|;
    assert Wire(r, headers)[..n] == Join(chunks[..k]);
    PrefixIncomplete(r, headers, n);
  }

  /** The headers recovered from a printed request are exactly the printed ones. */
  lemma HeadersRecovered(r: HttpRequest, headers: seq<Header>)
    requires Printable(r, headers)
    ensures forall k :: k in r.headers <==> HasKey(headers, k)
    ensures forall i :: 0 <= i < |headers| ==> headers[i].0 in r.headers && r.headers[headers[i].0] == headers[i].1
  {
    hide IsSafe, SafeHeaders, Put, HasKey;
    forall k
      ensures k in r.headers <==> HasKey(headers, k)
    {
      PutKeys(map[], headers, k);
    }
    forall i | 0 <= i < |headers|
      ensures headers[i].0 in r.headers && r.headers[headers[i].0] == headers[i].1
    {
      PutHoldsAll(map[], headers, i);
    }
  }
}
