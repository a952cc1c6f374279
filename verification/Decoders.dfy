/** The four VarInt decoders of packet/varint.go and packet/packet.go, side by side on the same bytes. */
module Decoders {
  import opened Bytes
  import opened Streams
  import opened VarInt
  import opened VarIntCodec
  import opened BufferPool
  import opened PacketFormat
  import opened PacketReading

  /** A decoder's answer: the number and the bytes left over, or nothing. */
  datatype Answer = Accepts(value: int32, rest: seq<byte>) | Refuses

  /** ReadVarIntFromBytes on the slice. */
  method FromBytes(s: seq<byte>) returns (a: Answer)
    ensures a == AnswerOf(s)
  {
    hide Scan;
    var d := ReadVarIntFromBytes(s);
    a := if d.Ok? then Accepts(d.value, d.rest) else Refuses;
  }

  /** The reference decoder's answer. */
  function AnswerOf(s: seq<byte>): Answer {
    match DecodeVarInt(s)
    case Ok(value, rest) => Accepts(value, rest)
    case Err(_) => Refuses
  }

  /** ReadVarInt on a stream. */
  method FromByteReader(s: seq<byte>) returns (a: Answer)
    ensures a == AnswerOf(s)
  {
    hide Scan;
    var src := new ByteSource(s);
    var d := VarIntCodec.ReadVarInt(src);
    a := if d.Number? then Accepts(d.value, src.data) else Refuses;
  }

  /** The packet reader's readVarInt. */
  method FromReader(s: seq<byte>, z: Zlib) returns (a: Answer)
    ensures a == AnswerOf(s)
  {
    hide Scan;
    var src := new ByteSource(s);
    var pool := new Pool();
    var reader := new PacketReader(src, pool, -1, z);
    var d := reader.ReadVarInt();
    a := if d.Number? then Accepts(d.value, src.data) else Refuses;
  }

  /** The raw reader's readUntilVarInt, followed by its own decoding loop. */
  method FromRawReader(s: seq<byte>, z: Zlib) returns (a: Answer)
    ensures a == AnswerOf(s)
  {
    hide Scan;
    var src := new ByteSource(s);
    var pool := new Pool();
    var reader := new PacketReader(src, pool, -1, z);
    var buf := new byte[MAX_VARINT_LEN];
    var ok, _, n := reader.ReadUntilVarInt(buf);
    if !ok {
      return Refuses;
    }
    ScanOfPrefix(s, MAX_VARINT_LEN);
    var v := reader.DecodeLength(buf, n);
    a := Accepts(v, src.data);
  }

  /**
   * All four give the reference decoder's answer: they accept the same bytes, with the same number and the
   * same bytes left over, and what an encoder wrote is accepted by each of them as what it was.
   */
  method DecodersAgree(s: seq<byte>, z: Zlib) returns (a: Answer, b: Answer, c: Answer, d: Answer)
    ensures a == b == c == d == AnswerOf(s)
    ensures forall v: int32, t: seq<byte> :: s == EncodeVarInt(v) + t ==> a == Accepts(v, t)
  {
    hide Scan, EncodeVarInt, AnswerOf;
    a := FromBytes(s);
    b := FromByteReader(s);
    c := FromReader(s, z);
    d := FromRawReader(s, z);
    forall v: int32, t: seq<byte> | s == EncodeVarInt(v) + t
      ensures a == Accepts(v, t)
    {
      AnswerToEncoded(v, t);
    }
  }

  lemma AnswerToEncoded(v: int32, t: seq<byte>)
    ensures AnswerOf(EncodeVarInt(v) + t) == Accepts(v, t)
  {
    hide Scan, EncodeVarInt;
    VarIntRoundTrip(v, t);
  }
}
