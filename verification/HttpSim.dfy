/** The incremental HTTP-like request parser: ten states, driven one byte at a time. */
module HttpSim {
  import opened Bits
  import opened Common
  import opened Decimal

  datatype HttpState =
    | Method | Uri | Version | HeaderKey | HeaderValue | ExpectValueLF | ExpectBodyLF | Body | Complete | Error

  datatype HttpRequest = HttpRequest(
    method_: string, uri: string, version: string, headers: map<string, string>, body: seq<byte>)

  datatype Parser = Parser(
    state: HttpState, request: HttpRequest, token: string, key: string, contentLength: nat, bodyRead: nat)

  const EMPTY_REQUEST := HttpRequest("", "", "", map[], [])

  /** A parser fresh from construction or reset. */
  const READY := Parser(Method, EMPTY_REQUEST, "", "", 0, 0)

  predicate IsSpace(c: char) {
    c == ' ' || ('\t' <= c <= '\r')
  }

  function SkipSpaces(s: string): string {
    if s != "" && IsSpace(s[0]) then SkipSpaces(s[1..]) else s
  }

  /** The longest run of digits at the start. */
  function LeadingDigits(s: string): (d: string)
    ensures IsNumeral(d)
  {
    if s != "" && IsDigit(s[0]) then [s[0]] + LeadingDigits(s[1..]) else ""
  }

  /** `std::stoul`: leading white space, an optional sign, digits; the rest is ignored. No digits and numbers beyond
      the range throw; a minus sign negates modulo the word. */
  function ParseUnsigned(s: string): (r: Option<nat>)
    ensures r.Some? ==> r.value < WORD64
  {
    var t := SkipSpaces(s);
    var negative := t != "" && t[0] == '-';
    var u := if t != "" && (t[0] == '-' || t[0] == '+') then t[1..] else t;
    var digits := LeadingDigits(u);
    if digits == "" || Value(digits) >= WORD64 then None
    else Some(if negative then (WORD64 - Value(digits)) % WORD64 else Value(digits))
  }

  /** The parser after the line feed that ends a header line. */
  function EndHeader(p: Parser): Parser {
    var headers := p.request.headers[p.key := p.token];
    var q := p.(request := p.request.(headers := headers));
    if p.key == "Content-Length" then
      match ParseUnsigned(p.token)
      case None => q.(state := Error)
      case Some(n) => q.(contentLength := n, token := "", key := "", state := HeaderKey)
    else q.(token := "", key := "", state := HeaderKey)
  }

  /** The parser after one byte. */
  function Step(p: Parser, b: byte): Parser {
    var ch := b as char;
    match p.state
    case Method =>
      if ch == ' ' then p.(request := p.request.(method_ := p.token), token := "", state := Uri)
      else p.(token := p.token + [ch])
    case Uri =>
      if ch == ' ' then p.(request := p.request.(uri := p.token), token := "", state := Version)
      else p.(token := p.token + [ch])
    case Version =>
      if ch == '\r' then p
      else if ch == '\n' then p.(request := p.request.(version := p.token), token := "", state := HeaderKey)
      else p.(token := p.token + [ch])
    case HeaderKey =>
      if ch == '\r' then p.(token := "", state := ExpectBodyLF)
      else if ch == ':' then p.(key := p.token, token := "", state := HeaderValue)
      else p.(token := p.token + [ch])
    case HeaderValue =>
      if ch == ' ' && p.token == "" then p
      else if ch == '\r' then p.(state := ExpectValueLF)
      else p.(token := p.token + [ch])
    case ExpectValueLF => if ch == '\n' then EndHeader(p) else p.(state := Error)
    case ExpectBodyLF =>
      if ch == '\n' then p.(state := if p.contentLength > 0 then Body else Complete) else p.(state := Error)
    case Body =>
      p.(request := p.request.(body := p.request.body + [b]), bodyRead := p.bodyRead + 1,
         state := if p.bodyRead + 1 >= p.contentLength then Complete else Body)
    case Complete => p
    case Error => p
  }

  /** The parser after a chunk of bytes. */
  function Feed(p: Parser, chunk: seq<byte>): Parser
    decreases chunk
  {
    if chunk == [] then p else Feed(Step(p, chunk[0]), chunk[1..])
  }

  lemma {:induction false} FeedTwo(p: Parser, a: seq<byte>, b: seq<byte>)
    ensures Feed(p, a + b) == Feed(Feed(p, a), b)
    decreases a
  {
    if a == [] {
      assert a + b == b;
    } else {
      assert (a + b)[1..] == a[1..] + b;
      FeedTwo(Step(p, a[0]), a[1..], b);
    }
  }

  lemma FeedSnoc(p: Parser, a: seq<byte>, b: byte)
    ensures Feed(p, a + [b]) == Step(Feed(p, a), b)
  {
    FeedTwo(p, a, [b]);
    assert Feed(Feed(p, a), [b]) == Feed(Step(Feed(p, a), b), [b][1..]);
  }

  class HttpSim {
    var state: HttpState
    var request: HttpRequest
    var currentToken: string
    var currentKey: string
    var contentLength: nat
    var bodyBytesRead: nat

    function View(): Parser
      reads this
    {
      Parser(state, request, currentToken, currentKey, contentLength, bodyBytesRead)
    }

    constructor ()
      ensures View() == READY
    {
      state, request := Method, EMPTY_REQUEST;
      currentToken, currentKey, contentLength, bodyBytesRead := "", "", 0, 0;
    }

    method Reset()
      modifies this
      ensures View() == READY
    {
      state := Method;
      request := EMPTY_REQUEST;
      currentToken := "";
      currentKey := "";
      contentLength := 0;
      bodyBytesRead := 0;
    }

    method ParseChunk(chunk: seq<byte>) returns (complete: bool)
      modifies this
      ensures View() == Feed(old(View()), chunk)
      ensures complete <==> View().state == Complete
    {
      for i := 0 to |chunk|
        invariant View() == Feed(old(View()), chunk[..i])
      {
        FeedSnoc(old(View()), chunk[..i], chunk[i]);
        assert chunk[..i + 1] == chunk[..i] + [chunk[i]];
        hide Feed, ParseUnsigned;
        var ch := chunk[i] as char;
        match state {
          case Method =>
            if ch == ' ' {
              request := request.(method_ := currentToken);
              currentToken := "";
              state := Uri;
            } else {
              currentToken := currentToken + [ch];
            }
          case Uri =>
            if ch == ' ' {
              request := request.(uri := currentToken);
              currentToken := "";
              state := Version;
            } else {
              currentToken := currentToken + [ch];
            }
          case Version =>
            if ch == '\r' {
            } else if ch == '\n' {
              request := request.(version := currentToken);
              currentToken := "";
              state := HeaderKey;
            } else {
              currentToken := currentToken + [ch];
            }
          case HeaderKey =>
            if ch == '\r' {
              currentToken := "";
              state := ExpectBodyLF;
            } else if ch == ':' {
              currentKey := currentToken;
              currentToken := "";
              state := HeaderValue;
            } else {
              currentToken := currentToken + [ch];
            }
          case HeaderValue =>
            if ch == ' ' && currentToken == "" {
            } else if ch == '\r' {
              state := ExpectValueLF;
            } else {
              currentToken := currentToken + [ch];
            }
          case ExpectValueLF =>
            if ch == '\n' {
              request := request.(headers := request.headers[currentKey := currentToken]);
              var parsed := if currentKey == "Content-Length" then ParseUnsigned(currentToken) else Some(contentLength);
              if parsed == None {
                state := Error;
              } else {
                contentLength := parsed.value;
                currentToken := "";
                currentKey := "";
                state := HeaderKey;
              }
            } else {
              state := Error;
            }
          case ExpectBodyLF =>
            if ch == '\n' {
              if contentLength > 0 {
                state := Body;
              } else {
                state := Complete;
              }
            } else {
              state := Error;
            }
          case Body =>
            request := request.(body := request.body + [chunk[i]]);
            bodyBytesRead := bodyBytesRead + 1;
            if bodyBytesRead >= contentLength {
              state := Complete;
            }
          case Complete =>
          case Error =>
        }
      }
      assert chunk[..|chunk|] == chunk;
      return state == Complete;
    }
  }
}
