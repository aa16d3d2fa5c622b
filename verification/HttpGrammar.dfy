/** Exactly which bytes complete the request parser, and what it then holds. */
module HttpGrammar {
  import opened Bits
  import opened Common
  import opened Decimal
  import opened HttpSim
  import opened HttpRoundTrip

  /** A header line: the key up to the colon, blanks, and the value up to the carriage return. */
  datatype Line = Line(key: string, blanks: nat, value: string)

  /** What a completed request consists of: request line, header lines, the last line, the body, and what follows it.
      `rawVersion` is the version with any carriage returns in it, `last` the text of the line that ends the headers. */
  datatype Parts = Parts(
    method_: string, uri: string, rawVersion: string, lines: seq<Line>, last: string, body: string, rest: string)

  predicate Without(s: string, forbidden: set<char>) {
    forall i :: 0 <= i < |s| ==> s[i] !in forbidden
  }

  function Blanks(n: nat): (s: string)
    ensures |s| == n && forall i :: 0 <= i < n ==> s[i] == ' '
  {
    seq(n, _ => ' ')
  }

  /** The text without its carriage returns. */
  function NoReturns(s: string): string {
    if s == "" then "" else NoReturns(Front(s)) + (if Last(s) == '\r' then "" else [Last(s)])
  }

  function LineText(l: Line): string {
    l.key + ":" + Blanks(l.blanks) + l.value + "\r\n"
  }

  function LinesText(lines: seq<Line>): string {
    if lines == [] then "" else LinesText(Front(lines)) + LineText(Last(lines))
  }

  /** A line the parser accepts: the key ends at the first colon and holds no carriage return, the value starts at the
      first character that is no blank and ends at the first carriage return. */
  predicate LineOk(l: Line) {
    && Without(l.key, {'\r', ':'}) && Without(l.value, {'\r'}) && (l.value != "" ==> l.value[0] != ' ')
    && (l.key == CONTENT_LENGTH ==> ParseUnsigned(l.value).Some?)
  }

  predicate LinesOk(lines: seq<Line>) {
    forall i :: 0 <= i < |lines| ==> LineOk(lines[i])
  }

  /** The body length the lines announce: that of the last Content-Length, 0 if there is none. */
  function Announced(lines: seq<Line>): nat
    requires LinesOk(lines)
  {
    if lines == [] then 0
    else if Last(lines).key == CONTENT_LENGTH then ParseUnsigned(Last(lines).value).value
    else assert LinesOk(Front(lines)); Announced(Front(lines))
  }

  /** The header map the lines make: later lines replace earlier ones of the same key. */
  function Entered(lines: seq<Line>): map<string, string> {
    if lines == [] then map[] else Entered(Front(lines))[Last(lines).key := Last(lines).value]
  }

  function RequestLine(p: Parts): string {
    p.method_ + " " + p.uri + " " + p.rawVersion + "\n"
  }

  function PartsText(p: Parts): string {
    RequestLine(p) + LinesText(p.lines) + p.last + "\r\n" + p.body + p.rest
  }

  /** Parts that make a complete request. */
  predicate PartsOk(p: Parts) {
    && Without(p.method_, {' '}) && Without(p.uri, {' '}) && Without(p.rawVersion, {'\n'})
    && LinesOk(p.lines) && Without(p.last, {'\r', ':'})
    && |p.body| == Announced(p.lines)
  }

  /** The bytes as characters. */
  function Text(bytes: seq<byte>): (s: string)
    ensures |s| == |bytes| && forall i :: 0 <= i < |s| ==> s[i] == bytes[i] as char
  {
    seq(|bytes|, i requires 0 <= i < |bytes| => bytes[i] as char)
  }

  // ----- what every state of the parser tells of the bytes so far

  /** The request line read so far leads into the headers read so far. */
  ghost predicate InHeaders(p: Parser, t: Parts) {
    && Without(t.method_, {' '}) && Without(t.uri, {' '}) && Without(t.rawVersion, {'\n'}) && LinesOk(t.lines)
    && p.request.method_ == t.method_ && p.request.uri == t.uri && p.request.version == NoReturns(t.rawVersion)
    && p.request.headers == Entered(t.lines) && p.contentLength == Announced(t.lines)
  }

  function HeadText(t: Parts): string {
    RequestLine(t) + LinesText(t.lines)
  }

  /** The parts and the line being read, `l`, explain how the text led to the parser state. */
  ghost predicate Explains(t: Parts, l: Line, p: Parser, text: string) {
    match p.state
    case Method => p == READY.(token := p.token) && text == p.token && Without(p.token, {' '})
    case Uri =>
      && p == READY.(state := Uri, request := p.request, token := p.token)
      && p.request == EMPTY_REQUEST.(method_ := t.method_)
      && text == t.method_ + " " + p.token && Without(t.method_, {' '}) && Without(p.token, {' '})
    case Version =>
      && p == READY.(state := Version, request := p.request, token := p.token)
      && p.request == EMPTY_REQUEST.(method_ := t.method_, uri := t.uri) && p.token == NoReturns(t.rawVersion)
      && text == t.method_ + " " + t.uri + " " + t.rawVersion
      && Without(t.method_, {' '}) && Without(t.uri, {' '}) && Without(t.rawVersion, {'\n'})
    case HeaderKey =>
      && InHeaders(p, t) && p.request.body == [] && p.bodyRead == 0
      && text == HeadText(t) + p.token && Without(p.token, {'\r', ':'})
    case HeaderValue =>
      && InHeaders(p, t) && p.request.body == [] && p.bodyRead == 0 && p.key == l.key && Without(l.key, {'\r', ':'})
      && text == HeadText(t) + l.key + ":" + Blanks(l.blanks) + p.token
      && Without(p.token, {'\r'}) && (p.token != "" ==> p.token[0] != ' ')
    case ExpectValueLF =>
      && InHeaders(p, t) && p.request.body == [] && p.bodyRead == 0 && p.key == l.key && Without(l.key, {'\r', ':'})
      && text == HeadText(t) + l.key + ":" + Blanks(l.blanks) + p.token + "\r"
      && Without(p.token, {'\r'}) && (p.token != "" ==> p.token[0] != ' ')
    case ExpectBodyLF =>
      && InHeaders(p, t) && p.request.body == [] && p.bodyRead == 0
      && text == HeadText(t) + t.last + "\r" && Without(t.last, {'\r', ':'})
    case Body =>
      && InHeaders(p, t) && Text(p.request.body) == t.body && p.bodyRead == |t.body| < p.contentLength
      && text == HeadText(t) + t.last + "\r\n" + t.body && Without(t.last, {'\r', ':'})
    case Complete =>
      && InHeaders(p, t) && Text(p.request.body) == t.body && |t.body| == p.contentLength
      && text == HeadText(t) + t.last + "\r\n" + t.body + t.rest && Without(t.last, {'\r', ':'})
    case Error => true
  }

  lemma NoReturnsSnoc(s: string, c: char)
    ensures NoReturns(s + [c]) == NoReturns(s) + (if c == '\r' then "" else [c])
  {
    assert Front(s + [c]) == s;
  }

  lemma LinesSnoc(lines: seq<Line>, l: Line)
    requires LinesOk(lines) && LineOk(l)
    ensures LinesOk(lines + [l]) && LinesText(lines + [l]) == LinesText(lines) + LineText(l)
    ensures Entered(lines + [l]) == Entered(lines)[l.key := l.value]
    ensures Announced(lines + [l]) == if l.key == CONTENT_LENGTH then ParseUnsigned(l.value).value else Announced(lines)
  {
    hide ParseUnsigned;
    assert Front(lines + [l]) == lines;
  }

  /** One more byte of the request line. */
  lemma RequestLineExplained(t: Parts, l: Line, p: Parser, text: string, b: byte) returns (t': Parts)
    requires Explains(t, l, p, text) && p.state in {Method, Uri, Version}
    ensures Explains(t', l, Step(p, b), text + [b as char])
  {
    var ch := b as char;
    hide LinesText, Blanks;
    t' := t;
    match p.state
    case Method =>
      if ch == ' ' {
        t' := t.(method_ := p.token);
        assert text + [ch] == t'.method_ + " " + "";
      }
    case Uri =>
      if ch == ' ' {
        t' := t.(uri := p.token, rawVersion := "");
        assert text + [ch] == t'.method_ + " " + t'.uri + " " + "";
      } else {
        assert text + [ch] == t.method_ + " " + (p.token + [ch]);
      }
    case Version =>
      if ch == '\n' {
        t' := t.(lines := []);
        assert LinesText([]) == "";
        assert text + [ch] == HeadText(t') + "";
      } else {
        t' := t.(rawVersion := t.rawVersion + [ch]);
        NoReturnsSnoc(t.rawVersion, ch);
        assert NoReturns(t.rawVersion) + "" == NoReturns(t.rawVersion);
        assert text + [ch] == t.method_ + " " + t.uri + " " + t'.rawVersion;
      }
  }

  /** One more byte of the headers. */
  lemma HeaderExplained(t: Parts, l: Line, p: Parser, text: string, b: byte) returns (t': Parts, l': Line)
    requires Explains(t, l, p, text) && p.state in {HeaderKey, HeaderValue}
    ensures Explains(t', l', Step(p, b), text + [b as char])
  {
    var ch := b as char;
    var h := HeadText(t);
    hide HeadText, LinesOk, Entered, Announced, NoReturns;
    t', l' := t, l;
    match p.state
    case HeaderKey =>
      if ch == '\r' {
        t' := t.(last := p.token);
        SameHead(t, t');
        assert text + [ch] == h + t'.last + "\r";
      } else if ch == ':' {
        l' := Line(p.token, 0, "");
        assert text + [ch] == h + l'.key + ":" + Blanks(0) + "";
      } else {
        assert text + [ch] == h + (p.token + [ch]);
      }
    case HeaderValue =>
      var front := h + l.key + ":";
      if ch == ' ' && p.token == "" {
        l' := l.(blanks := l.blanks + 1);
        assert Blanks(l.blanks) + " " == Blanks(l.blanks + 1);
        assert text + [ch] == front + (Blanks(l.blanks) + " ") + "";
      } else if ch == '\r' {
        assert text + [ch] == front + Blanks(l.blanks) + p.token + "\r";
      } else {
        assert text + [ch] == front + Blanks(l.blanks) + (p.token + [ch]);
      }
  }

  lemma SameHead(t: Parts, t': Parts)
    requires t.method_ == t'.method_ && t.uri == t'.uri && t.rawVersion == t'.rawVersion && t.lines == t'.lines
    ensures HeadText(t) == HeadText(t')
  {
  }

  lemma HeadSnoc(t: Parts, line: Line)
    requires LinesOk(t.lines) && LineOk(line)
    ensures HeadText(t.(lines := t.lines + [line])) == HeadText(t) + LineText(line)
  {
    LinesSnoc(t.lines, line);
    hide LinesText, LineText;
    assert RequestLine(t) + (LinesText(t.lines) + LineText(line)) == HeadText(t) + LineText(line);
  }

  lemma LineEnds(h: string, l: Line)
    ensures h + l.key + ":" + Blanks(l.blanks) + l.value + "\r" + "\n" == h + LineText(l)
  {
    hide Blanks;
    var blanks := Blanks(l.blanks);
    assert h + l.key + ":" + blanks + l.value + "\r" + "\n" == h + (l.key + ":" + blanks + l.value + "\r\n");
  }

  /** The line feed that ends a header line, or a byte that should be one. */
  lemma LineEndExplained(t: Parts, l: Line, p: Parser, text: string, b: byte) returns (t': Parts, l': Line)
    requires Explains(t, l, p, text) && p.state == ExpectValueLF
    ensures Explains(t', l', Step(p, b), text + [b as char])
  {
    var ch := b as char;
    hide ParseUnsigned, NoReturns;
    t', l' := t, l;
    if ch == '\n' && (p.key == CONTENT_LENGTH ==> ParseUnsigned(p.token).Some?) {
      var line := Line(l.key, l.blanks, p.token);
      assert LineOk(line);
      t' := t.(lines := t.lines + [line]);
      LinesSnoc(t.lines, line);
      HeadSnoc(t, line);
      hide LinesText, LineText, HeadText, Entered, Announced, LinesOk, LineOk, Blanks;
      LineEnds(HeadText(t), line);
      assert text + [ch] == HeadText(t') + "";
    }
  }

  /** The line feed that ends the head, and every byte after it. */
  lemma BodyExplained(t: Parts, l: Line, p: Parser, text: string, b: byte) returns (t': Parts)
    requires Explains(t, l, p, text) && p.state in {ExpectBodyLF, Body, Complete, Error}
    ensures Explains(t', l, Step(p, b), text + [b as char])
  {
    var ch := b as char;
    var front := HeadText(t) + t.last + "\r\n";
    t' := t;
    match p.state
    case ExpectBodyLF =>
      if ch == '\n' {
        t' := t.(body := "", rest := "");
        SameHead(t, t');
        hide HeadText, LinesOk, Entered, Announced, NoReturns;
        assert text + [ch] == front + "";
        assert text + [ch] == front + "" + "";
      }
    case Body =>
      t' := t.(body := t.body + [ch], rest := "");
      SameHead(t, t');
      hide HeadText, LinesOk, Entered, Announced, NoReturns;
      assert Text(p.request.body + [b]) == t'.body;
      assert text + [ch] == front + t'.body;
      assert text + [ch] == front + t'.body + "";
    case Complete =>
      t' := t.(rest := t.rest + [ch]);
      SameHead(t, t');
      hide HeadText, LinesOk, Entered, Announced, NoReturns;
      assert text + [ch] == front + t'.body + t'.rest;
    case Error =>
  }

  /** Every state the parser reaches from a fresh start is explained by the bytes it was fed. */
  lemma {:induction false} AllExplained(bytes: seq<byte>) returns (t: Parts, l: Line)
    ensures Explains(t, l, Feed(READY, bytes), Text(bytes))
    decreases bytes
  {
    hide Explains, Feed, Step;
    if bytes == [] {
      t, l := Parts("", "", "", [], "", "", ""), Line("", 0, "");
      StartExplained(t, l);
    } else {
      var front, b := bytes[..|bytes| - 1], bytes[|bytes| - 1];
      t, l := AllExplained(front);
      assert bytes == front + [b] && Text(bytes) == Text(front) + [b as char];
      FeedSnoc(READY, front, b);
      var p := Feed(READY, front);
      match p.state {
        case Method => t := RequestLineExplained(t, l, p, Text(front), b);
        case Uri => t := RequestLineExplained(t, l, p, Text(front), b);
        case Version => t := RequestLineExplained(t, l, p, Text(front), b);
        case HeaderKey => t, l := HeaderExplained(t, l, p, Text(front), b);
        case HeaderValue => t, l := HeaderExplained(t, l, p, Text(front), b);
        case ExpectValueLF => t, l := LineEndExplained(t, l, p, Text(front), b);
        case _ => t := BodyExplained(t, l, p, Text(front), b);
      }
    }
  }

  lemma StartExplained(t: Parts, l: Line)
    ensures Explains(t, l, Feed(READY, []), Text([]))
  {
  }

  /** The request made of the parts. */
  ghost predicate Makes(t: Parts, r: HttpRequest) {
    && LinesOk(t.lines)
    && r.method_ == t.method_ && r.uri == t.uri && r.version == NoReturns(t.rawVersion)
    && r.headers == Entered(t.lines) && Text(r.body) == t.body
  }

  /** Soundness. When the parser is complete, the bytes are a request line, header lines each ended by carriage return
      and line feed, one more line ended so, exactly as many body bytes as the last Content-Length says, and whatever
      follows; and the request is the one those parts make. */
  lemma CompleteHasParts(bytes: seq<byte>) returns (t: Parts)
    requires Feed(READY, bytes).state == Complete
    ensures PartsOk(t) && Text(bytes) == PartsText(t) && Makes(t, Feed(READY, bytes).request)
  {
    hide Feed;
    var l: Line;
    t, l := AllExplained(bytes);
  }

  // ----- all such bytes complete the parser

  lemma SafeText(state: HttpState, s: string, forbidden: set<char>)
    requires IsByteText(s) && Without(s, forbidden)
    requires forall c: char :: c !in forbidden ==> Joins(state, c)
    ensures IsSafe(state, s)
  {
  }

  /** The version up to its line feed; carriage returns are dropped. */
  lemma {:induction false} LeadsByVersion(p: Parser, s: string)
    requires p.state == Version && IsByteText(s) && Without(s, {'\n'})
    ensures Leads(p, s, p.(token := p.token + NoReturns(s)))
    decreases s
  {
    hide Leads, Step;
    if s == "" {
      LeadsNowhere(p);
      assert p.token + "" == p.token;
    } else {
      var front, c := Front(s), Last(s);
      LeadsByVersion(p, front);
      var q := p.(token := p.token + NoReturns(front));
      LeadsByChar(q, c);
      VersionStep(q, c);
      assert front + [c] == s;
      Chain(p, front, q, [c], Step(q, c as int as byte));
      assert p.token + NoReturns(front) + (if c == '\r' then "" else [c]) == p.token + NoReturns(s);
    }
  }

  lemma VersionStep(q: Parser, c: char)
    requires q.state == Version && c as int < 256 && c != '\n'
    ensures Step(q, c as int as byte) == q.(token := q.token + (if c == '\r' then "" else [c]))
  {
    assert q.token + "" == q.token;
  }

  /** Blanks before a value are skipped. */
  lemma {:induction false} LeadsByBlanks(p: Parser, n: nat)
    requires p.state == HeaderValue && p.token == ""
    ensures Leads(p, Blanks(n), p)
  {
    if n == 0 {
      LeadsNowhere(p);
      assert Blanks(0) == "";
    } else {
      hide Leads;
      LeadsByBlanks(p, n - 1);
      LeadsByChar(p, ' ');
      Chain(p, Blanks(n - 1), p, " ", p);
      assert Blanks(n - 1) + " " == Blanks(n);
    }
  }

  /** The parser after an accepted line. */
  function AfterLine(p: Parser, l: Line): Parser
    requires LineOk(l)
  {
    WithHeader(p, (l.key, l.value))
  }

  lemma LeadsByLine(p: Parser, l: Line)
    requires AtHeaderStart(p) && LineOk(l) && IsByteText(l.key) && IsByteText(l.value)
    ensures Leads(p, LineText(l), AfterLine(p, l)) && AtHeaderStart(AfterLine(p, l))
  {
    hide ParseUnsigned, Leads, IsSafe;
    var p1 := p.(token := l.key);
    var p2 := p.(state := HeaderValue, key := l.key);
    var p3 := p2.(token := l.value);
    var p4 := p3.(state := ExpectValueLF);
    var p5 := AfterLine(p, l);
    SafeText(HeaderKey, l.key, {'\r', ':'});
    SafeText(HeaderValue, l.value, {'\r'});
    LeadsByFreshToken(p, l.key);
    LeadsByChar(p1, ':');
    LeadsByBlanks(p2, l.blanks);
    LeadsByFreshToken(p2, l.value);
    LeadsByChar(p3, '\r');
    LeadsByChar(p4, '\n');
    hide Step, Blanks, LineOk;
    var blanks := Blanks(l.blanks);
    Chain(p, l.key, p1, ":", p2);
    Chain(p, l.key + ":", p2, blanks, p2);
    Chain(p, l.key + ":" + blanks, p2, l.value, p3);
    Chain(p3, "\r", p4, "\n", p5);
    Chain(p, l.key + ":" + blanks + l.value, p3, "\r" + "\n", p5);
    assert l.key + ":" + blanks + l.value + ("\r" + "\n") == LineText(l);
  }

  /** The parser after accepted lines. */
  function AfterLines(p: Parser, lines: seq<Line>): Parser
    requires LinesOk(lines)
  {
    p.(request := p.request.(headers := Entered(lines)), contentLength := Announced(lines))
  }

  lemma {:induction false} LeadsByLines(p: Parser, lines: seq<Line>)
    requires AtHeaderStart(p) && LinesOk(lines) && p.request.headers == map[] && p.contentLength == 0
    requires IsByteText(LinesText(lines))
    ensures Leads(p, LinesText(lines), AfterLines(p, lines))
    decreases lines
  {
    hide Leads, ParseUnsigned, LineOk, LineText;
    if lines == [] {
      LeadsNowhere(p);
    } else {
      var front, l := Front(lines), Last(lines);
      assert LinesOk(front) && LineOk(l);
      ByteParts(LinesText(front), LineText(l));
      LeadsByLines(p, front);
      LineBytes(l);
      LeadsByLine(AfterLines(p, front), l);
      Chain(p, LinesText(front), AfterLines(p, front), LineText(l), AfterLine(AfterLines(p, front), l));
      assert AfterLine(AfterLines(p, front), l) == AfterLines(p, lines);
    }
  }

  lemma ByteParts(a: string, b: string)
    requires IsByteText(a + b)
    ensures IsByteText(a) && IsByteText(b)
  {
    assert forall i :: 0 <= i < |a| ==> a[i] == (a + b)[i];
    assert forall i :: 0 <= i < |b| ==> b[i] == (a + b)[|a| + i];
  }

  lemma LineBytes(l: Line)
    requires IsByteText(LineText(l))
    ensures IsByteText(l.key) && IsByteText(l.value)
  {
    hide Blanks, IsByteText;
    ByteParts(l.key + ":" + Blanks(l.blanks) + l.value, "\r\n");
    ByteParts(l.key + ":" + Blanks(l.blanks), l.value);
    ByteParts(l.key + ":", Blanks(l.blanks));
    ByteParts(l.key, ":");
  }

  /** The parser at the first header line. */
  function AfterRequestLine(t: Parts): Parser {
    Parser(HeaderKey, HttpRequest(t.method_, t.uri, NoReturns(t.rawVersion), map[], []), "", "", 0, 0)
  }

  lemma LeadsByRawRequestLine(t: Parts)
    requires Without(t.method_, {' '}) && Without(t.uri, {' '}) && Without(t.rawVersion, {'\n'})
    requires IsByteText(t.method_) && IsByteText(t.uri) && IsByteText(t.rawVersion)
    ensures Leads(READY, RequestLine(t), AfterRequestLine(t))
  {
    hide Leads, IsSafe;
    var p1 := READY.(token := t.method_);
    var p2 := READY.(state := Uri, request := EMPTY_REQUEST.(method_ := t.method_));
    var p3 := p2.(token := t.uri);
    var p4 := p2.(state := Version, request := p2.request.(uri := t.uri));
    var p5 := p4.(token := NoReturns(t.rawVersion));
    SafeText(Method, t.method_, {' '});
    SafeText(Uri, t.uri, {' '});
    LeadsByFreshToken(READY, t.method_);
    LeadsByChar(p1, ' ');
    LeadsByFreshToken(p2, t.uri);
    LeadsByChar(p3, ' ');
    LeadsByVersion(p4, t.rawVersion);
    assert "" + NoReturns(t.rawVersion) == NoReturns(t.rawVersion);
    LeadsByChar(p5, '\n');
    hide Step, NoReturns;
    Chain(READY, t.method_, p1, " ", p2);
    Chain(READY, t.method_ + " ", p2, t.uri, p3);
    Chain(READY, t.method_ + " " + t.uri, p3, " ", p4);
    Chain(READY, t.method_ + " " + t.uri + " ", p4, t.rawVersion, p5);
    Chain(READY, t.method_ + " " + t.uri + " " + t.rawVersion, p5, "\n", AfterRequestLine(t));
  }

  /** The parser before the line feed that ends the head. */
  function AfterLast(t: Parts): Parser
    requires LinesOk(t.lines)
  {
    AfterLines(AfterRequestLine(t), t.lines).(state := ExpectBodyLF)
  }

  lemma LeadsByHead(t: Parts)
    requires PartsOk(t) && IsByteText(HeadText(t) + t.last + "\r")
    ensures Leads(READY, HeadText(t) + t.last + "\r", AfterLast(t))
  {
    HeadBytes(t);
    LeadsByRawRequestLine(t);
    hide Leads, IsSafe, NoReturns, LinesOk, Entered, Announced, IsByteText;
    var p := AfterRequestLine(t);
    LeadsByLines(p, t.lines);
    Chain(READY, RequestLine(t), p, LinesText(t.lines), AfterLines(p, t.lines));
    var q := AfterLines(p, t.lines);
    SafeText(HeaderKey, t.last, {'\r', ':'});
    LeadsByFreshToken(q, t.last);
    LeadsByChar(q.(token := t.last), '\r');
    Chain(READY, HeadText(t), q, t.last, q.(token := t.last));
    Chain(READY, HeadText(t) + t.last, q.(token := t.last), "\r", AfterLast(t));
  }

  lemma HeadBytes(t: Parts)
    requires IsByteText(HeadText(t) + t.last + "\r")
    ensures IsByteText(t.method_) && IsByteText(t.uri) && IsByteText(t.rawVersion)
    ensures IsByteText(LinesText(t.lines)) && IsByteText(t.last)
  {
    hide IsByteText, LinesText;
    ByteParts(HeadText(t) + t.last, "\r");
    ByteParts(HeadText(t), t.last);
    ByteParts(RequestLine(t), LinesText(t.lines));
    ByteParts(t.method_ + " " + t.uri + " " + t.rawVersion, "\n");
    ByteParts(t.method_ + " " + t.uri + " ", t.rawVersion);
    ByteParts(t.method_ + " " + t.uri, " ");
    ByteParts(t.method_ + " ", t.uri);
    ByteParts(t.method_, " ");
  }

  lemma TextOfSlice(bytes: seq<byte>, i: nat, j: nat)
    requires i <= j <= |bytes|
    ensures Text(bytes[i..j]) == Text(bytes)[i..j]
  {
  }

  lemma EncodeOfText(bytes: seq<byte>)
    ensures IsByteText(Text(bytes)) && Encode(Text(bytes)) == bytes
  {
  }

  lemma FourParts(text: string, h: string, body: string, rest: string)
    requires text == h + "\n" + body + rest
    ensures var n, m := |h|, |h| + 1 + |body|;
      m <= |text| && text[..n] == h && text[n] == '\n' && text[n + 1..m] == body
  {
  }

  /** The head, the line feed, the body and the rest of bytes that are the text of parts. */
  lemma SplitBytes(bytes: seq<byte>, t: Parts) returns (head: seq<byte>, body: seq<byte>, rest: seq<byte>)
    requires Text(bytes) == PartsText(t)
    ensures bytes == head + [10] + body + rest && Text(body) == t.body
    ensures IsByteText(HeadText(t) + t.last + "\r") && head == Encode(HeadText(t) + t.last + "\r")
  {
    var h := HeadText(t) + t.last + "\r";
    SplitText(t);
    hide HeadText, PartsText, Encode, IsByteText;
    FourParts(Text(bytes), h, t.body, t.rest);
    var n, m := |h|, |h| + 1 + |t.body|;
    head, body, rest := bytes[..n], bytes[n + 1..m], bytes[m..];
    assert bytes[n] == 10 && bytes == head + [bytes[n]] + body + rest;
    TextOfSlice(bytes, 0, n);
    TextOfSlice(bytes, n + 1, m);
    hide Text;
    assert bytes[0..n] == head && Text(bytes)[0..n] == Text(bytes)[..n];
    EncodeOfText(head);
  }

  lemma SplitText(t: Parts)
    ensures PartsText(t) == HeadText(t) + t.last + "\r" + "\n" + t.body + t.rest
  {
    hide LinesText;
    assert t.last + "\r\n" == t.last + "\r" + "\n";
  }

  /** Completeness: all bytes of such parts complete the parser, and the request is the one they make. */
  lemma PartsComplete(bytes: seq<byte>, t: Parts)
    requires PartsOk(t) && Text(bytes) == PartsText(t)
    ensures Feed(READY, bytes).state == Complete && Makes(t, Feed(READY, bytes).request)
  {
    var head, body, rest := SplitBytes(bytes, t);
    LeadsByHead(t);
    hide HeadText, PartsText, LinesOk, Entered, Announced, NoReturns, Feed, Encode, Text;
    var p := AfterLast(t);
    var tail := [10] + body;
    assert bytes == head + tail + rest;
    FeedTwo(READY, head + tail, rest);
    FeedTwo(READY, head, tail);
    assert |body| == |Text(body)|;
    AfterHead(p, body);
    CompleteStays(Feed(READY, head + tail), rest);
  }

  /** Exactly which bytes complete the parser. */
  lemma CompleteIffParts(bytes: seq<byte>)
    ensures Feed(READY, bytes).state == Complete <==> exists t :: PartsOk(t) && Text(bytes) == PartsText(t)
  {
    hide Feed, PartsOk, PartsText, Text;
    if Feed(READY, bytes).state == Complete {
      var t := CompleteHasParts(bytes);
    }
    if t :| PartsOk(t) && Text(bytes) == PartsText(t) {
      PartsComplete(bytes, t);
    }
  }

  /** After an error no bytes complete the parser. */
  lemma {:induction false} ErrorStays(p: Parser, bytes: seq<byte>)
    requires p.state == Error
    ensures Feed(p, bytes) == p
    decreases bytes
  {
    if bytes != [] {
      ErrorStays(p, bytes[1..]);
    }
  }

  /** A carriage return in a header value, or in the line that ends the headers, is an error unless a line feed follows.
      */
  lemma StrayReturnIsError(p: Parser, b: byte, more: seq<byte>)
    requires p.state in {ExpectValueLF, ExpectBodyLF} && b as char != '\n'
    ensures Feed(p, [b] + more).state == Error
  {
    assert ([b] + more)[1..] == more;
    ErrorStays(Step(p, b), more);
  }

  // ----- the number in a Content-Length

  predicate IsBlank(c: char) {
    c as int in {9, 10, 11, 12, 13, 32}
  }

  predicate AllBlank(s: string) {
    forall i :: 0 <= i < |s| ==> IsBlank(s[i])
  }

  lemma {:induction false} SkipsBlanks(pad: string, s: string)
    requires AllBlank(pad) && (s != "" ==> !IsBlank(s[0]))
    ensures SkipSpaces(pad + s) == s
  {
    if pad == "" {
      assert pad + s == s;
    } else {
      assert (pad + s)[1..] == pad[1..] + s && IsBlank(pad[0]);
      SkipsBlanks(pad[1..], s);
    }
  }

  lemma {:induction false} TakesDigits(digits: string, rest: string)
    requires IsNumeral(digits) && (rest != "" ==> !IsDigit(rest[0]))
    ensures LeadingDigits(digits + rest) == digits
  {
    if digits == "" {
      assert digits + rest == rest;
    } else {
      assert (digits + rest)[1..] == digits[1..] + rest && IsDigit(digits[0]);
      TakesDigits(digits[1..], rest);
    }
  }

  /** What is read of any value: blanks, an optional sign and digits, whatever follows. No digits, or a number that does
      not fit into 64 bits, is an error; a minus sign negates the word. */
  lemma ReadsUnsigned(pad: string, sign: string, digits: string, rest: string)
    requires AllBlank(pad) && sign in {"", "+", "-"} && IsNumeral(digits) && (rest != "" ==> !IsDigit(rest[0]))
    requires sign == "" && digits == "" && rest != "" ==> !IsBlank(rest[0]) && rest[0] !in {'+', '-'}
    ensures ParseUnsigned(pad + sign + digits + rest) ==
      if digits == "" || Value(digits) >= WORD64 then None
      else if sign == "-" then Some((WORD64 - Value(digits)) % WORD64) else Some(Value(digits))
  {
    hide Pow2, Value;
    var number := digits + rest;
    var signed := sign + number;
    assert pad + sign + digits + rest == pad + signed;
    if digits != "" {
      assert IsDigit(digits[0]) && number[0] == digits[0];
    }
    assert sign == "" ==> signed == number;
    SkipsBlanks(pad, signed);
    TakesDigits(digits, rest);
    assert (if signed != "" && (signed[0] == '-' || signed[0] == '+') then signed[1..] else signed) == number;
  }
}
