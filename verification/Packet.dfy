/** The binary packet: a packed six-byte header with a big-endian length, and a payload of at most one MTU. */
module Packets {
  import opened Common

  const MTU: nat := 1500
  const HEADER_SIZE: nat := 6

  /** `payload` is the whole fixed-size buffer; the first `length` bytes of it are the payload proper. */
  datatype Packet = Packet(version: byte, kind: byte, length: nat, payload: seq<byte>)

  datatype Parsed = Ok(packet: Packet) | TooSmallForHeader | ExceedsMtu | Truncated

  function Zeros(n: nat): (z: seq<byte>)
    ensures |z| == n
    ensures forall i :: 0 <= i < n ==> z[i] == 0
  {
    seq(n, _ => 0)
  }

  /** The packets the constructors and the deserializer make: no more than an MTU, and zeros behind the payload. */
  predicate WellFormed(p: Packet) {
    && |p.payload| == MTU && p.length <= MTU
    && forall i :: p.length <= i < MTU ==> p.payload[i] == 0
  }

  /** A packet of the given type from a byte vector, cut at the MTU. */
  method Make(kind: byte, data: seq<byte>) returns (p: Packet)
    ensures WellFormed(p) && p.version == 1 && p.kind == kind
    ensures p.length == (if |data| > MTU then MTU else |data|) && p.payload[..p.length] == data[..p.length]
  {
    var payload := new byte[MTU](_ => 0);
    var length := if |data| > MTU then MTU else |data|;
    forall i | 0 <= i < length {
      payload[i] := data[i];
    }
    assert payload[..][..length] == data[..length];
    p := Packet(1, kind, length, payload[..]);
  }

  /** Four bytes, most significant first. */
  function BigEndian(n: nat): (b: seq<byte>)
    requires n < 0x1_0000_0000
    ensures |b| == 4
  {
    [(n / 0x1000000) as byte, (n / 0x10000 % 0x100) as byte, (n / 0x100 % 0x100) as byte, (n % 0x100) as byte]
  }

  function FromBigEndian(b: seq<byte>): (n: nat)
    requires |b| == 4
    ensures n < 0x1_0000_0000
  {
    ((b[0] as int * 0x100 + b[1] as int) * 0x100 + b[2] as int) * 0x100 + b[3] as int
  }

  lemma BigEndianRoundTrip(n: nat)
    requires n < 0x1_0000_0000
    ensures FromBigEndian(BigEndian(n)) == n
  {
    var two, three := n / 0x10000, n / 0x1000000;
    assert three * 0x100 + two % 0x100 == two;
    assert two * 0x100 + n / 0x100 % 0x100 == n / 0x100;
    assert n / 0x100 * 0x100 + n % 0x100 == n;
  }

  lemma FromBigEndianRoundTrip(b: seq<byte>)
    requires |b| == 4
    ensures BigEndian(FromBigEndian(b)) == b
  {
    var n := FromBigEndian(b);
    var high := (b[0] as int * 0x100 + b[1] as int) * 0x100 + b[2] as int;
    assert n / 0x100 == high && n % 0x100 == b[3] as int;
    assert n / 0x10000 == high / 0x100 && n / 0x1000000 == high / 0x10000;
  }

  /** The bytes of a packet on the wire. */
  function Wire(p: Packet): (w: seq<byte>)
    requires p.length <= |p.payload| && p.length < 0x1_0000_0000
    ensures |w| == HEADER_SIZE + p.length
  {
    [p.version, p.kind] + BigEndian(p.length) + p.payload[..p.length]
  }

  /** What a byte sequence is parsed as. */
  function Parse(raw: seq<byte>): (r: Parsed)
    ensures r.Ok? ==> WellFormed(r.packet) && HEADER_SIZE + r.packet.length <= |raw|
  {
    if |raw| < HEADER_SIZE then TooSmallForHeader
    else
      var length := FromBigEndian(raw[2..6]);
      if length > MTU then ExceedsMtu
      else if |raw| < HEADER_SIZE + length then Truncated
      else Ok(Packet(raw[0], raw[1], length, raw[6..6 + length] + Zeros(MTU - length)))
  }

  /** Fills a buffer of header size plus payload length: the header with its length in network order, the payload. */
  method Serialize(p: Packet) returns (buffer: array<byte>)
    requires WellFormed(p)
    ensures fresh(buffer) && buffer[..] == Wire(p)
  {
    buffer := new byte[HEADER_SIZE + p.length](_ => 0);
    var netHeader := [p.version, p.kind] + BigEndian(p.length);
    forall i | 0 <= i < HEADER_SIZE {
      buffer[i] := netHeader[i];
    }
    if p.length > 0 {
      forall i | 0 <= i < p.length {
        buffer[HEADER_SIZE + i] := p.payload[i];
      }
    }
    assert buffer[..] == netHeader + p.payload[..p.length];
  }

  method Deserialize(raw: seq<byte>) returns (r: Parsed)
    ensures r == Parse(raw)
  {
    if |raw| < HEADER_SIZE {
      return TooSmallForHeader;
    }
    var payload := new byte[MTU](_ => 0);
    var length := FromBigEndian(raw[2..6]);
    if length > MTU {
      return ExceedsMtu;
    }
    if |raw| < HEADER_SIZE + length {
      return Truncated;
    }
    if length > 0 {
      forall i | 0 <= i < length {
        payload[i] := raw[HEADER_SIZE + i];
      }
    }
    assert payload[..] == raw[6..6 + length] + Zeros(MTU - length);
    return Ok(Packet(raw[0], raw[1], length, payload[..]));
  }

  /** Parsing the bytes of a packet, whatever follows them, gives the packet back. */
  lemma ParseUndoesWire(p: Packet, rest: seq<byte>)
    requires WellFormed(p)
    ensures Parse(Wire(p) + rest) == Ok(p)
  {
    var raw := Wire(p) + rest;
    assert raw[2..6] == BigEndian(p.length);
    BigEndianRoundTrip(p.length);
    assert raw[6..6 + p.length] == p.payload[..p.length];
    assert p.payload == p.payload[..p.length] + Zeros(MTU - p.length);
  }

  lemma ParseUndoesWireAlone(p: Packet)
    requires WellFormed(p)
    ensures Parse(Wire(p)) == Ok(p)
  {
    ParseUndoesWire(p, []);
    assert Wire(p) + [] == Wire(p);
  }

  /** A byte sequence parses as a packet exactly when it starts with the bytes of that packet. */
  lemma ParsesIffPrefix(raw: seq<byte>, p: Packet)
    requires WellFormed(p)
    ensures Parse(raw) == Ok(p) <==> Wire(p) <= raw
  {
    if Parse(raw) == Ok(p) {
      FromBigEndianRoundTrip(raw[2..6]);
      assert p.payload[..p.length] == raw[6..6 + p.length];
      assert raw[..6 + p.length] == [raw[0], raw[1]] + raw[2..6] + raw[6..6 + p.length];
    }
    if Wire(p) <= raw {
      assert raw == Wire(p) + raw[|Wire(p)|..];
      ParseUndoesWire(p, raw[|Wire(p)|..]);
    }
  }

  /** The length field of a header, most significant byte first. */
  function Declared(raw: seq<byte>): nat
    requires |raw| >= 6
  {
    raw[2] as int * 16777216 + raw[3] as int * 65536 + raw[4] as int * 256 + raw[5] as int
  }

  /** What each byte sequence is parsed as, and which of the errors it is refused with. */
  lemma ParseSaysWhy(raw: seq<byte>)
    ensures Parse(raw) == TooSmallForHeader <==> |raw| < 6
    ensures |raw| >= 6 ==> (Parse(raw) == ExceedsMtu <==> Declared(raw) > 1500)
    ensures |raw| >= 6 ==> (Parse(raw) == Truncated <==> Declared(raw) <= 1500 && |raw| < 6 + Declared(raw))
    ensures Parse(raw).Ok? ==>
      var p, n := Parse(raw).packet, Declared(raw);
      && p.version == raw[0] && p.kind == raw[1] && p.length == n <= 1500 && |p.payload| == 1500
      && (forall i :: 0 <= i < n ==> p.payload[i] == raw[6 + i]) && (forall i :: n <= i < 1500 ==> p.payload[i] == 0)
  {
    if |raw| >= 6 {
      assert FromBigEndian(raw[2..6]) == Declared(raw);
    }
  }

  /** The bytes of a packet: version, type, the length most significant byte first, and the payload. */
  lemma WireBytes(p: Packet)
    requires WellFormed(p)
    ensures var w := Wire(p);
      && |w| == 6 + p.length && w[0] == p.version && w[1] == p.kind && Declared(w) == p.length
      && forall i :: 0 <= i < p.length ==> w[6 + i] == p.payload[i]
  {
    var w := Wire(p);
    BigEndianRoundTrip(p.length);
    assert w[2..6] == BigEndian(p.length);
    assert FromBigEndian(w[2..6]) == Declared(w);
  }
}
