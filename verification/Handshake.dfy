/** The handshake packet of proxy/handshake.go: version, host, port and next state, read, built and rewritten. */
module Handshake {
  import opened Bytes
  import opened VarInt
  import opened VarIntCodec
  import opened PacketFormat

  type uint16 = x: int | 0 <= x < 0x1_0000

  datatype Parsed = Parsed(host: seq<byte>, port: uint16, nextState: int32) | Bad(error: Error)

  function PortBytes(port: uint16): (s: seq<byte>)
    ensures |s| == 2
  {
    [port / 256, port % 256]
  }

  function PortOf(hi: byte, lo: byte): (port: uint16)
    ensures PortBytes(port) == [hi, lo]
  {
    var h: int, l: int := hi, lo;
    h * 256 + l
  }

  /** ParseHandshake: defined on every packet. */
  function Parse(pkt: Packet): Parsed {
    if |pkt.data| < 2 then Bad(PacketTooShort)
    else match DecodeVarInt(pkt.data)
      case Err(e) => Bad(e)
      case Ok(_, afterVersion) => ParseHost(afterVersion)
  }

  function ParseHost(s: seq<byte>): Parsed {
    match DecodeVarInt(s)
    case Err(e) => Bad(e)
    case Ok(n, rest) =>
      if n > |rest| || n < 0 then Bad(PacketTooShort) else ParsePort(rest[..n], rest[n..])
  }

  function ParsePort(host: seq<byte>, s: seq<byte>): Parsed {
    if |s| < 2 then Bad(PacketTooShort)
    else match DecodeVarInt(s[2..])
      case Err(e) => Bad(e)
      case Ok(state, _) => Parsed(host, PortOf(s[0], s[1]), state)
  }

  /** What BuildHandshake puts into the data; the length of the host is converted to 32 bits. */
  function Assemble(version: seq<byte>, host: seq<byte>, rest: seq<byte>): seq<byte> {
    version + EncodeVarInt(Truncate32(|host|)) + host + rest
  }

  function Build(version: int32, host: seq<byte>, port: uint16, nextState: int32): Packet {
    Packet(0, Assemble(EncodeVarInt(version), host, PortBytes(port) + EncodeVarInt(nextState)))
  }

  datatype Modified = Rewritten(packet: Packet) | Rejected(error: Error)

  /** ModifyHandshakeHost. */
  function Modify(pkt: Packet, newHost: seq<byte>): Modified {
    match Parse(pkt)
    case Bad(e) => Rejected(e)
    case Parsed(host, _, _) =>
      var afterVersion := DecodeVarInt(pkt.data).rest;
      var afterLength := DecodeVarInt(afterVersion).rest;
      var version := pkt.data[..|pkt.data| - |afterVersion|];
      Rewritten(Packet(pkt.id, Assemble(version, newHost, afterLength[|host|..])))
  }

  // ---------------------------------------------------------------- the methods

  /** One VarInt at the front of the scratch buffer. */
  method PutField(buf: array<byte>, v: int32) returns (n: nat)
    requires buf.Length == MAX_VARINT_LEN
    modifies buf
    ensures n <= buf.Length && buf[..n] == EncodeVarInt(v)
  {
    hide Leb128, VarIntLen;
    n := PutVarInt(buf, 0, v);
    assert buf[..n] == buf[0..n];
  }

  method BuildHandshake(version: int32, host: seq<byte>, port: uint16, nextState: int32) returns (p: Packet)
    ensures p == Build(version, host, port, nextState)
  {
    hide Leb128, EncodeVarInt;
    var data: seq<byte> := [];
    var buf := new byte[MAX_VARINT_LEN];
    var n := PutField(buf, version);
    data := data + buf[..n];
    n := PutField(buf, Truncate32(|host|));
    data := data + buf[..n];
    data := data + host;
    data := data + [port / 256, port % 256];
    n := PutField(buf, nextState);
    data := data + buf[..n];
    p := Packet(0, data);
    ghost var v, l, w := EncodeVarInt(version), EncodeVarInt(Truncate32(|host|)), EncodeVarInt(nextState);
    assert data == v + l + host + PortBytes(port) + w;
    Assoc(v + l + host, PortBytes(port), w);
  }

  method ModifyHandshakeHost(pkt: Packet, newHost: seq<byte>) returns (r: Modified)
    ensures r == Modify(pkt, newHost)
  {
    hide Leb128, VarIntLen, Scan, DecodeVarInt;
    if Parse(pkt).Bad? {
      return Rejected(Parse(pkt).error);
    }
    var d := ReadVarIntFromBytes(pkt.data);
    var protoLen := |pkt.data| - |d.rest|;
    var d2 := ReadVarIntFromBytes(d.rest);
    var afterHost := d2.rest[d2.value..];
    var newData := pkt.data[..protoLen];
    var buf := new byte[MAX_VARINT_LEN];
    var n := PutField(buf, Truncate32(|newHost|));
    newData := newData + buf[..n];
    newData := newData + newHost;
    newData := newData + afterHost;
    r := Rewritten(Packet(pkt.id, newData));
  }

  // ---------------------------------------------------------------- parsing what was built

  /** A VarInt and nothing after it, canonical or not. */
  ghost predicate WholeVarInt(v: seq<byte>) {
    Scan(v, MAX_VARINT_LEN).Value? && Scan(v, MAX_VARINT_LEN).used == |v|
  }

  lemma WholeDecodes(v: seq<byte>, t: seq<byte>)
    requires WholeVarInt(v)
    ensures DecodeVarInt(v + t).Ok? && DecodeVarInt(v + t).rest == t
  {
    hide Scan;
    ScanPrefix(v, t, MAX_VARINT_LEN);
    assert (v + t)[|v|..] == t;
  }

  lemma EncodedIsWhole(v: int32)
    ensures WholeVarInt(EncodeVarInt(v))
  {
    ScanEncodedBefore(v, []);
    assert EncodeVarInt(v) + [] == EncodeVarInt(v);
  }

  /** An assembled handshake is its version followed by the announced host and the rest. */
  lemma Assembled(version: seq<byte>, host: seq<byte>, rest: seq<byte>)
    ensures Assemble(version, host, rest) == version + (EncodeVarInt(Truncate32(|host|)) + (host + rest))
  {
    hide EncodeVarInt;
    var length := EncodeVarInt(Truncate32(|host|));
    Assoc(version + length, host, rest);
    Assoc(version, length, host + rest);
  }

  /** An assembled handshake is read back as the host and whatever its remainder says. */
  lemma ParseAssembled(id: int32, version: seq<byte>, host: seq<byte>, rest: seq<byte>)
    requires WholeVarInt(version) && |host| < TWO31
    ensures Parse(Packet(id, Assemble(version, host, rest))) == ParsePort(host, rest)
    ensures DecodeVarInt(Assemble(version, host, rest)).Ok?
    ensures DecodeVarInt(Assemble(version, host, rest)).rest == EncodeVarInt(|host|) + host + rest
    ensures DecodeVarInt(EncodeVarInt(|host|) + host + rest) == Ok(|host|, host + rest)
  {
    hide Scan, Leb128, DecodeVarInt, ParsePort, EncodeVarInt, Assemble, WholeVarInt;
    var length := EncodeVarInt(|host|);
    Assembled(version, host, rest);
    VarIntRoundTrip(|host|, host + rest);
    NotTiny(version, length + (host + rest));
    WholeDecodes(version, length + (host + rest));
    Assoc(length, host, rest);
    Halves(host, rest);
  }

  /** A version and a length are two bytes at least, which the parser checks first. */
  lemma NotTiny(version: seq<byte>, t: seq<byte>)
    requires WholeVarInt(version) && DecodeVarInt(t).Ok?
    ensures |version + t| >= 2
  {
    hide Scan;
  }

  lemma ParsePortBuilt(host: seq<byte>, port: uint16, nextState: int32)
    ensures ParsePort(host, PortBytes(port) + EncodeVarInt(nextState)) == Parsed(host, port, nextState)
  {
    hide Scan, Leb128, DecodeVarInt;
    var s := PortBytes(port) + EncodeVarInt(nextState);
    assert s[2..] == EncodeVarInt(nextState) == EncodeVarInt(nextState) + [];
    VarIntRoundTrip(nextState, []);
  }

  /** The bytes of a built handshake; the port's high byte comes first. */
  lemma BuildLayout(version: int32, host: seq<byte>, port: uint16, nextState: int32) returns (hi: byte, lo: byte)
    ensures var h: int, l: int := hi, lo;
            port == 0x100 * h + l
    ensures Build(version, host, port, nextState)
            == Packet(0, EncodeVarInt(version) + EncodeVarInt(Truncate32(|host|)) + host + [hi, lo]
                         + EncodeVarInt(nextState))
  {
    hide EncodeVarInt;
    hi, lo := port / 256, port % 256;
    Assoc(EncodeVarInt(version) + EncodeVarInt(Truncate32(|host|)) + host, [hi, lo], EncodeVarInt(nextState));
  }

  /** And of a handshake to be read, whoever built it: any version, and anything behind the state. */
  lemma ParseLayout(id: int32, version: seq<byte>, host: seq<byte>, hi: byte, lo: byte, state: seq<byte>)
    requires WholeVarInt(version) && |host| < TWO31
    ensures var h: int, l: int := hi, lo;
            Parse(Packet(id, version + EncodeVarInt(|host|) + host + [hi, lo] + state))
            == match DecodeVarInt(state) {
                 case Ok(s, _) => Parsed(host, 0x100 * h + l, s)
                 case Err(e) => Bad(e)
               }
  {
    hide Scan, DecodeVarInt, EncodeVarInt, WholeVarInt, Parse;
    var rest := [hi, lo] + state;
    Assoc(version + EncodeVarInt(|host|) + host, [hi, lo], state);
    ParseAssembled(id, version, host, rest);
    assert rest[2..] == state;
  }

  /** A built handshake parses to what it was built from, exactly when the host's length fits 31 bits. */
  lemma ParseBuild(version: int32, host: seq<byte>, port: uint16, nextState: int32)
    ensures Parse(Build(version, host, port, nextState)) == Parsed(host, port, nextState) <==> |host| < TWO31
  {
    hide Scan, Leb128, DecodeVarInt, ParsePort;
    EncodedIsWhole(version);
    var rest := PortBytes(port) + EncodeVarInt(nextState);
    if |host| < TWO31 {
      ParseAssembled(0, EncodeVarInt(version), host, rest);
      ParsePortBuilt(host, port, nextState);
    } else {
      LongHostLost(0, EncodeVarInt(version), host, rest);
    }
  }

  lemma LongHostLost(id: int32, version: seq<byte>, host: seq<byte>, rest: seq<byte>)
    requires WholeVarInt(version) && |host| >= TWO31
    ensures var p := Parse(Packet(id, Assemble(version, host, rest)));
            p.Bad? || p.host != host
  {
    hide Scan, Leb128, DecodeVarInt, ParseHost, EncodeVarInt;
    var n := Truncate32(|host|);
    var length := EncodeVarInt(n);
    Assoc(version, length, host);
    Assoc(version, length + host, rest);
    WholeDecodes(version, length + host + rest);
    Assoc(length, host, rest);
    HostLength(n, host + rest);
  }

  /** A parsed host has exactly the announced length. */
  lemma HostLength(n: int32, s: seq<byte>)
    ensures var p := ParseHost(EncodeVarInt(n) + s);
            p.Bad? || |p.host| == n
  {
    hide Scan, Leb128, DecodeVarInt, EncodeVarInt;
    VarIntRoundTrip(n, s);
  }

  // ---------------------------------------------------------------- rewriting the host

  /** The encoded version of a packet, as it stands. */
  function VersionBytes(pkt: Packet): seq<byte>
    requires Parse(pkt).Parsed?
  {
    pkt.data[..|pkt.data| - |DecodeVarInt(pkt.data).rest|]
  }

  /** Everything after the host: port, state, and any trailing bytes. */
  function AfterHost(pkt: Packet): seq<byte>
    requires Parse(pkt).Parsed?
  {
    DecodeVarInt(DecodeVarInt(pkt.data).rest).rest[|Parse(pkt).host|..]
  }

  lemma VersionIsWhole(pkt: Packet)
    requires Parse(pkt).Parsed?
    ensures WholeVarInt(VersionBytes(pkt))
  {
    hide Scan;
    var r := Scan(pkt.data, MAX_VARINT_LEN);
    ScanOfPrefix(pkt.data, MAX_VARINT_LEN);
    assert VersionBytes(pkt) == pkt.data[..r.used];
  }

  lemma ParsedFromRest(pkt: Packet)
    requires Parse(pkt).Parsed?
    ensures Parse(pkt) == ParsePort(Parse(pkt).host, AfterHost(pkt))
  {
    hide Scan, DecodeVarInt;
  }

  /** What a rewrite is for: the new host is read, and all else is as it was. */
  ghost predicate RewrittenWell(pkt: Packet, newHost: seq<byte>)
    requires Parse(pkt).Parsed? && Modify(pkt, newHost).Rewritten?
  {
    var r := Modify(pkt, newHost).packet;
    && Parse(r) == Parsed(newHost, Parse(pkt).port, Parse(pkt).nextState)
    && r.id == pkt.id
    && VersionBytes(r) == VersionBytes(pkt) && AfterHost(r) == AfterHost(pkt)
  }

  /**
   * Rewriting a parseable packet always succeeds. The result parses to the new host and the old port and
   * state, with id, version bytes and everything after the host kept, exactly when the host's length fits
   * 31 bits.
   */
  lemma ModifyKeepsTheRest(pkt: Packet, newHost: seq<byte>)
    requires Parse(pkt).Parsed?
    ensures Modify(pkt, newHost).Rewritten?
    ensures RewrittenWell(pkt, newHost) <==> |newHost| < TWO31
  {
    hide Scan, Leb128, DecodeVarInt, Parse, RewrittenWell;
    ModifyParts(pkt, newHost);
    if |newHost| < TWO31 {
      ModifyFits(pkt, newHost);
    } else {
      ModifyTooLong(pkt, newHost);
    }
  }

  lemma ModifyTooLong(pkt: Packet, newHost: seq<byte>)
    requires Parse(pkt).Parsed? && |newHost| >= TWO31
    ensures Modify(pkt, newHost).Rewritten? && !RewrittenWell(pkt, newHost)
  {
    hide Scan, Leb128, DecodeVarInt, Parse;
    ModifyParts(pkt, newHost);
    VersionIsWhole(pkt);
    LongHostLost(pkt.id, VersionBytes(pkt), newHost, AfterHost(pkt));
  }

  lemma ModifyFits(pkt: Packet, newHost: seq<byte>)
    requires Parse(pkt).Parsed? && |newHost| < TWO31
    ensures Modify(pkt, newHost).Rewritten? && RewrittenWell(pkt, newHost)
  {
    hide Scan, Leb128, DecodeVarInt, ParseHost;
    VersionIsWhole(pkt);
    ParsedFromRest(pkt);
    var version, rest := VersionBytes(pkt), AfterHost(pkt);
    var r := Modify(pkt, newHost).packet;
    assert r == Packet(pkt.id, Assemble(version, newHost, rest));
    ParseAssembled(pkt.id, version, newHost, rest);
    var tail := EncodeVarInt(|newHost|) + newHost + rest;
    assert r.data == version + tail;
    assert r.data[..|version|] == version;
    assert (newHost + rest)[|newHost|..] == rest;
  }

  /**
   * Rewriting a built handshake gives, byte for byte, the handshake built with the new host, exactly when
   * the old host's length fits 31 bits.
   */
  lemma ModifyBuild(version: int32, host: seq<byte>, port: uint16, nextState: int32, newHost: seq<byte>)
    ensures var built, wanted := Build(version, host, port, nextState), Build(version, newHost, port, nextState);
            Modify(built, newHost) == Rewritten(wanted) <==> |host| < TWO31
  {
    hide Scan, Leb128, DecodeVarInt, Parse, EncodeVarInt;
    var v, rest := EncodeVarInt(version), PortBytes(port) + EncodeVarInt(nextState);
    EncodedIsWhole(version);
    var pkt := Build(version, host, port, nextState);
    if |host| < TWO31 {
      BuiltParts(version, host, port, nextState);
      ModifyParts(pkt, newHost);
    } else if Parse(pkt).Parsed? {
      LongRest(0, v, host, rest);
      ModifyParts(pkt, newHost);
      var x, y := Modify(pkt, newHost).packet.data, Build(version, newHost, port, nextState).data;
      assert |x| > |y|;
    }
  }

  lemma BuiltParts(version: int32, host: seq<byte>, port: uint16, nextState: int32)
    requires |host| < TWO31
    ensures var pkt := Build(version, host, port, nextState);
            && Parse(pkt).Parsed?
            && VersionBytes(pkt) == EncodeVarInt(version)
            && AfterHost(pkt) == PortBytes(port) + EncodeVarInt(nextState)
  {
    hide Scan, Leb128, DecodeVarInt, ParsePort, ParseHost;
    var v, rest := EncodeVarInt(version), PortBytes(port) + EncodeVarInt(nextState);
    EncodedIsWhole(version);
    ParseAssembled(0, v, host, rest);
    ParsePortBuilt(host, port, nextState);
    var data := Assemble(v, host, rest);
    var tail := EncodeVarInt(|host|) + host + rest;
    assert data == v + tail;
    assert data[..|data| - |tail|] == v;
    assert (host + rest)[|host|..] == rest;
  }

  /** Of two rewrites the last one wins, exactly when the first host's length fits 31 bits. */
  lemma LastRewriteWins(pkt: Packet, host1: seq<byte>, host2: seq<byte>)
    requires Parse(pkt).Parsed?
    ensures Modify(pkt, host1).Rewritten?
    ensures Modify(Modify(pkt, host1).packet, host2) == Modify(pkt, host2) <==> |host1| < TWO31
  {
    hide Scan, Leb128, DecodeVarInt, Parse;
    ModifyParts(pkt, host1);
    ModifyParts(pkt, host2);
    var r := Modify(pkt, host1).packet;
    if |host1| < TWO31 {
      ModifyFits(pkt, host1);
      ModifyParts(r, host2);
    } else if Parse(r).Parsed? {
      ModifyParts(r, host2);
      VersionIsWhole(pkt);
      LongRest(pkt.id, VersionBytes(pkt), host1, AfterHost(pkt));
      var x, y := Modify(r, host2).packet.data, Modify(pkt, host2).packet.data;
      assert |x| > |y|;
    }
  }

  /** A host too long for its length field spills into what follows it. */
  lemma LongRest(id: int32, version: seq<byte>, host: seq<byte>, rest: seq<byte>)
    requires WholeVarInt(version) && |host| >= TWO31
    requires Parse(Packet(id, Assemble(version, host, rest))).Parsed?
    ensures var r := Packet(id, Assemble(version, host, rest));
            VersionBytes(r) == version && |AfterHost(r)| > |rest|
  {
    hide Scan, Leb128, DecodeVarInt, ParsePort;
    var r, n := Packet(id, Assemble(version, host, rest)), Truncate32(|host|);
    var length := EncodeVarInt(n);
    hide EncodeVarInt;
    Assoc(version, length, host);
    Assoc(version, length + host, rest);
    WholeDecodes(version, length + host + rest);
    assert r.data[..|version|] == version;
    Assoc(length, host, rest);
    VarIntRoundTrip(n, host + rest);
    HostLength(n, host + rest);
  }

  lemma ModifyParts(pkt: Packet, newHost: seq<byte>)
    requires Parse(pkt).Parsed?
    ensures Modify(pkt, newHost) == Rewritten(Packet(pkt.id, Assemble(VersionBytes(pkt), newHost, AfterHost(pkt))))
  {
    hide Scan, Leb128, DecodeVarInt;
  }
}
