/** A packet sent as the body of a request survives printing, fragmentation, parsing and deserializing. */
module Stack {
  import opened Bits
  import opened Common
  import opened Decimal
  import HttpSim
  import HttpRoundTrip
  import Packets

  /** The headers the telemetry client prints around a body of the given length. */
  function ClientHeaders(host: string, port: string, length: nat): seq<HttpRoundTrip.Header> {
    [("Host", host + ":" + port), ("Content-Type", "application/json"), ("Content-Length", Print(length)),
     ("Connection", "close")]
  }

  /** The request the telemetry client prints. */
  function ClientRequest(path: string, host: string, port: string, body: seq<byte>): HttpSim.HttpRequest {
    HttpSim.HttpRequest("POST", path, "HTTP/1.1", HttpRoundTrip.Put(map[], ClientHeaders(host, port, |body|)), body)
  }

  lemma LiteralIsSafe(state: HttpSim.HttpState, s: string)
    requires state in {HttpSim.Method, HttpSim.Uri, HttpSim.Version, HttpSim.HeaderKey, HttpSim.HeaderValue}
    requires forall c :: c in s ==> c as int < 256 && c !in {' ', '\r', '\n', ':'}
    ensures HttpRoundTrip.IsSafe(state, s)
  {
    forall i | 0 <= i < |s|
      ensures s[i] as int < 256 && HttpRoundTrip.Joins(state, s[i])
    {
      assert s[i] in s;
    }
  }

  lemma ClientHeadersAreSafe(host: string, port: string, length: nat)
    requires HttpRoundTrip.IsSafeHeader(("Host", host + ":" + port))
    ensures HttpRoundTrip.SafeHeaders(ClientHeaders(host, port, length))
  {
    LiteralIsSafe(HttpSim.HeaderKey, "Content-Type");
    LiteralIsSafe(HttpSim.HeaderValue, "application/json");
    LiteralIsSafe(HttpSim.HeaderKey, "Content-Length");
    LiteralIsSafe(HttpSim.HeaderKey, "Connection");
    LiteralIsSafe(HttpSim.HeaderValue, "close");
    NumeralIsSafe(Print(length));
    hide HttpRoundTrip.IsSafe;
  }

  lemma ClientKeysAreDistinct(host: string, port: string, length: nat)
    ensures HttpRoundTrip.DistinctKeys(ClientHeaders(host, port, length))
    ensures (HttpRoundTrip.CONTENT_LENGTH, Print(length)) in ClientHeaders(host, port, length)
  {
    hide Print;
    assert ClientHeaders(host, port, length)[2] == (HttpRoundTrip.CONTENT_LENGTH, Print(length));
    assert |"Host"| == 4 && |"Content-Type"| == 12 && |"Content-Length"| == 14 && |"Connection"| == 10;
  }

  /** The client's request is printable for every path and host that contain no delimiter of their place. */
  lemma ClientRequestIsPrintable(path: string, host: string, port: string, body: seq<byte>)
    requires HttpRoundTrip.IsSafe(HttpSim.Uri, path)
    requires HttpRoundTrip.IsSafeHeader(("Host", host + ":" + port)) && |body| < WORD64
    ensures HttpRoundTrip.Printable(ClientRequest(path, host, port, body), ClientHeaders(host, port, |body|))
  {
    LiteralIsSafe(HttpSim.Method, "POST");
    LiteralIsSafe(HttpSim.Version, "HTTP/1.1");
    ClientHeadersAreSafe(host, port, |body|);
    ClientKeysAreDistinct(host, port, |body|);
    hide HttpRoundTrip.IsSafe, HttpRoundTrip.SafeHeaders, HttpRoundTrip.DistinctKeys, HttpRoundTrip.Put, ClientHeaders;
  }

  lemma HeadOfFour(m: string, u: string, v: string, a: HttpRoundTrip.Header, b: HttpRoundTrip.Header,
                   c: HttpRoundTrip.Header, d: HttpRoundTrip.Header)
    ensures HttpRoundTrip.Head(m, u, v, [a, b, c, d]) ==
      m + " " + u + " " + v + "\r\n" +
      (a.0 + ": " + a.1 + "\r\n" +
       (b.0 + ": " + b.1 + "\r\n" + (c.0 + ": " + c.1 + "\r\n" + (d.0 + ": " + d.1 + "\r\n")))) +
      "\r\n"
  {
    assert [a, b, c, d][1..] == [b, c, d] && [b, c, d][1..] == [c, d] && [c, d][1..] == [d] && [d][1..] == [];
    var la, lb := a.0 + ": " + a.1 + "\r\n", b.0 + ": " + b.1 + "\r\n";
    var lc, ld := c.0 + ": " + c.1 + "\r\n", d.0 + ": " + d.1 + "\r\n";
    assert HttpRoundTrip.HeaderLines([]) == "";
    assert HttpRoundTrip.HeaderLines([d]) == ld + "" == ld;
    assert HttpRoundTrip.HeaderLines([c, d]) == lc + ld;
    assert HttpRoundTrip.HeaderLines([b, c, d]) == lb + (lc + ld);
    assert HttpRoundTrip.HeaderLines([a, b, c, d]) == la + (lb + (lc + ld));
  }

  /** The text of the request up to its body, as the client writes it. */
  lemma ClientText(path: string, host: string, port: string, length: nat)
    ensures HttpRoundTrip.Head("POST", path, "HTTP/1.1", ClientHeaders(host, port, length)) ==
      "POST" + " " + path + " " + "HTTP/1.1" + "\r\n" +
      ("Host" + ": " + (host + ":" + port) + "\r\n" +
       ("Content-Type" + ": " + "application/json" + "\r\n" +
        ("Content-Length" + ": " + Print(length) + "\r\n" +
         ("Connection" + ": " + "close" + "\r\n")))) +
      "\r\n"
  {
    HeadOfFour("POST", path, "HTTP/1.1", ("Host", host + ":" + port), ("Content-Type", "application/json"),
      ("Content-Length", Print(length)), ("Connection", "close"));
  }

  lemma NumeralIsSafe(s: string)
    requires IsNumeral(s)
    ensures HttpRoundTrip.IsSafe(HttpSim.HeaderValue, s) && (s != "" ==> s[0] != ' ')
  {
    forall i | 0 <= i < |s|
      ensures s[i] as int < 256 && HttpRoundTrip.Joins(HttpSim.HeaderValue, s[i]) && s[i] != ' '
    {
      assert IsDigit(s[i]);
    }
  }

  /** The whole stack. For every well-formed packet, every printable request that carries it, and every way to cut the
      printed bytes: completion is reported exactly with the last byte, every field is recovered, and the body
      deserializes to the packet. */
  lemma PacketSurvivesStack(p: Packets.Packet, r: HttpSim.HttpRequest, headers: seq<HttpRoundTrip.Header>,
                            chunks: seq<seq<byte>>, k: nat)
    requires Packets.WellFormed(p) && r.body == Packets.Wire(p)
    requires HttpRoundTrip.Printable(r, headers) && HttpRoundTrip.IsByteText(HttpRoundTrip.OpenHead(r, headers))
    requires HttpRoundTrip.Join(chunks) == HttpRoundTrip.Wire(r, headers) && k <= |chunks|
    ensures HttpRoundTrip.FeedChunks(HttpSim.READY, chunks[..k]).state == HttpSim.Complete
      <==> HttpRoundTrip.Join(chunks[..k]) == HttpRoundTrip.Wire(r, headers)
    ensures var end := HttpRoundTrip.FeedChunks(HttpSim.READY, chunks);
      end.state == HttpSim.Complete && end.request == r && Packets.Parse(end.request.body) == Packets.Ok(p)
  {
    hide *;
    HttpRoundTrip.AnyFragmentation(r, headers, chunks, k);
    Packets.ParseUndoesWireAlone(p);
  }
}
