/** The frame codec of tunnel/mux.go: type, big-endian stream id, and for data a big-endian length and the bytes. */
module MuxFrame {
  import opened Bytes
  import opened Streams

  const MUX_DATA: byte := 0
  const MUX_OPEN: byte := 1
  const MUX_CLOSE: byte := 2
  const MUX_PING: byte := 3
  const MUX_PONG: byte := 4

  datatype Frame = Frame(kind: byte, stream: uint32, data: seq<byte>)

  function BigEndian(v: uint32): (s: seq<byte>)
    ensures |s| == 4
  {
    [v / 256 / 256 / 256, v / 256 / 256 % 256, v / 256 % 256, v % 256]
  }

  function FromBigEndian(s: seq<byte>): (v: uint32)
    requires |s| == 4
  {
    var a: int, b: int, c: int, d: int := s[0], s[1], s[2], s[3];
    256 * (256 * (256 * a + b) + c) + d
  }

  lemma BigEndianBack(v: uint32)
    ensures FromBigEndian(BigEndian(v)) == v
  {
  }

  function Header(f: Frame): (s: seq<byte>)
    ensures |s| == 5
  {
    [f.kind] + BigEndian(f.stream)
  }

  /** The value of four bytes, the first one the most significant. */
  lemma BigEndianAt(v: uint32, s: seq<byte>)
    requires |s| == 4
    ensures var a: int, b: int, c: int, d: int := s[0], s[1], s[2], s[3];
            && FromBigEndian(s) == 0x100_0000 * a + 0x1_0000 * b + 0x100 * c + d
            && (s == BigEndian(v) <==> v == 0x100_0000 * a + 0x1_0000 * b + 0x100 * c + d)
  {
    var a: int, b: int, c: int, d: int := s[0], s[1], s[2], s[3];
    var x, y := 256 * (256 * a + b) + c, 256 * a + b;
    if v == 256 * x + d {
      DivUnique(v, 256, x, d);
      DivUnique(x, 256, y, c);
      DivUnique(y, 256, a, b);
      assert s == [s[0], s[1], s[2], s[3]];
    }
  }

  /** Only data frames carry their bytes; their length is converted to 32 bits. */
  function Encode(f: Frame): seq<byte> {
    if f.kind == MUX_DATA then Header(f) + BigEndian(|f.data| % TWO32) + f.data else Header(f)
  }

  datatype Decoded = Got(frame: Frame, rest: seq<byte>) | EndOfFrames

  function Decode(s: seq<byte>): Decoded {
    if |s| < 5 then EndOfFrames
    else
      var kind, stream := s[0], FromBigEndian(s[1..5]);
      if kind != MUX_DATA then Got(Frame(kind, stream, []), s[5..])
      else if |s| < 9 then EndOfFrames
      else
        var n := FromBigEndian(s[5..9]);
        if |s| - 9 < n then EndOfFrames else Got(Frame(kind, stream, s[9..9 + n]), s[9 + n..])
  }

  /** What survives the wire: data only in data frames, and a length that fits 32 bits. */
  predicate WellFormed(f: Frame) {
    (f.kind != MUX_DATA ==> f.data == []) && |f.data| < TWO32
  }

  /** Kind and stream id are at the front of every frame, whatever follows. */
  lemma HeaderFront(f: Frame, t: seq<byte>)
    ensures var s := Header(f) + t;
            s[0] == f.kind && FromBigEndian(s[1..5]) == f.stream && s[5..] == t
  {
    hide BigEndian, FromBigEndian;
    BigEndianBack(f.stream);
    var s := Header(f) + t;
    assert s[1..5] == BigEndian(f.stream);
  }

  /** Every frame, byte by byte. */
  lemma FrameLayout(f: Frame)
    ensures var e := Encode(f);
            && |e| == (if f.kind == 0 then 9 + |f.data| else 5) && e[0] == f.kind
            && BytesAre(e[1..5], f.stream) && (f.kind == 0 ==> BytesAre(e[5..9], |f.data| % TWO32) && e[9..] == f.data)
  {
    hide BigEndian;
    BigEndianAt(f.stream, BigEndian(f.stream));
    assert Encode(f)[1..5] == BigEndian(f.stream);
    if f.kind == 0 {
      var n: uint32 := |f.data| % TWO32;
      BigEndianAt(n, BigEndian(n));
      assert Encode(f)[5..9] == BigEndian(n);
    }
  }

  predicate BytesAre(s: seq<byte>, v: int)
    requires |s| == 4
  {
    var a: int, b: int, c: int, d: int := s[0], s[1], s[2], s[3];
    v == 0x100_0000 * a + 0x1_0000 * b + 0x100 * c + d
  }

  /** What is read off any bytes: nothing if they end early, and else the frame that begins them. */
  lemma DecodeLayout(s: seq<byte>, v: uint32, n: uint32)
    requires |s| >= 5 ==> BytesAre(s[1..5], v)
    requires |s| >= 9 ==> BytesAre(s[5..9], n)
    ensures Decode(s) == EndOfFrames <==> |s| < 5 || (s[0] == 0 && (|s| < 9 || |s| < 9 + n))
    ensures |s| >= 5 && s[0] != 0 ==> Decode(s) == Got(Frame(s[0], v, []), s[5..])
    ensures |s| >= 9 + n && s[0] == 0 ==> Decode(s) == Got(Frame(0, v, s[9..9 + n]), s[9 + n..])
  {
    hide FromBigEndian, BigEndian;
    if |s| >= 5 { BigEndianAt(v, s[1..5]); }
    if |s| >= 9 { BigEndianAt(n, s[5..9]); }
  }

  /** A length and as many bytes as it says, or fewer, in front of the rest. */
  lemma LengthFront(s: seq<byte>, n: uint32, t: seq<byte>)
    requires |s| >= 5 && s[5..] == BigEndian(n) + t
    ensures FromBigEndian(s[5..9]) == n && s[9..] == t
  {
    hide BigEndian, FromBigEndian;
    BigEndianBack(n);
    Halves(BigEndian(n), t);
    Piece(s, 5, 4);
  }

  lemma DataDecodes(f: Frame, rest: seq<byte>)
    requires f.kind == MUX_DATA
    ensures var n := |f.data| % TWO32;
            n <= |f.data|
            && Decode(Encode(f) + rest) == Got(Frame(f.kind, f.stream, f.data[..n]), f.data[n..] + rest)
  {
    hide BigEndian, FromBigEndian, Header;
    var n := LowLength(|f.data|);
    var len, t := BigEndian(n), f.data + rest;
    Assoc(Header(f) + len, f.data, rest);
    Assoc(Header(f), len, t);
    var s := Encode(f) + rest;
    assert s == Header(f) + (len + t);
    HeaderFront(f, len + t);
    LengthFront(s, n, t);
    Piece(s, 9, n);
    assert t[..n] == f.data[..n] && t[n..] == f.data[n..] + rest;
  }

  /** A length's low 32 bits. */
  lemma LowLength(m: nat) returns (n: uint32)
    ensures n == m % TWO32 <= m && (n == m <==> m < TWO32)
  {
    n := m % TWO32;
    if m < TWO32 {
      DivUnique(m, TWO32, 0, m);
    }
  }

  lemma OthersDecode(f: Frame, rest: seq<byte>)
    requires f.kind != MUX_DATA
    ensures Decode(Encode(f) + rest) == Got(Frame(f.kind, f.stream, []), rest)
  {
    hide BigEndian, FromBigEndian, Header;
    HeaderFront(f, rest);
  }

  /** A frame reads back to itself, in front of anything, exactly when it is well formed. */
  lemma FrameRoundTrip(f: Frame, rest: seq<byte>)
    ensures Decode(Encode(f) + rest) == Got(f, rest) <==> WellFormed(f)
  {
    hide Encode, Decode;
    if f.kind == MUX_DATA {
      DataDecodes(f, rest);
      var n := LowLength(|f.data|);
      if n == |f.data| {
        assert f.data[..n] == f.data && f.data[n..] + rest == rest;
      }
    } else {
      OthersDecode(f, rest);
    }
  }

  function EncodeAll(fs: seq<Frame>): seq<byte> {
    if fs == [] then [] else Encode(fs[0]) + EncodeAll(fs[1..])
  }

  function DecodeAll(s: seq<byte>, n: nat): Option<(seq<Frame>, seq<byte>)> {
    if n == 0 then Some(([], s))
    else match Decode(s)
      case EndOfFrames => None
      case Got(f, rest) =>
        match DecodeAll(rest, n - 1)
        case Some((fs, last)) => Some(([f] + fs, last))
        case None => None
  }

  /** Any list of well-formed frames reads back to itself from the concatenated bytes. */
  lemma {:induction false} FramesRoundTrip(fs: seq<Frame>, rest: seq<byte>)
    requires forall f :: f in fs ==> WellFormed(f)
    ensures DecodeAll(EncodeAll(fs) + rest, |fs|) == Some((fs, rest))
  {
    hide Decode, Encode;
    if fs == [] {
      assert [] + rest == rest;
    } else {
      FrameRoundTrip(fs[0], EncodeAll(fs[1..]) + rest);
      FramesRoundTrip(fs[1..], rest);
      assert EncodeAll(fs) + rest == Encode(fs[0]) + (EncodeAll(fs[1..]) + rest);
      assert fs == [fs[0]] + fs[1..];
    }
  }

  // ---------------------------------------------------------------- the methods

  method PutUint32(buf: array<byte>, off: nat, v: uint32)
    requires off + 4 <= buf.Length
    modifies buf
    ensures buf[off..off + 4] == BigEndian(v)
    ensures buf[..off] == old(buf[..off]) && buf[off + 4..] == old(buf[off + 4..])
  {
    buf[off] := v / 256 / 256 / 256;
    buf[off + 1] := v / 256 / 256 % 256;
    buf[off + 2] := v / 256 % 256;
    buf[off + 3] := v % 256;
  }

  method WriteFrame(dst: ByteSink, f: Frame) returns (ok: bool)
    modifies dst
    ensures ok == (|Encode(f)| <= old(dst.room))
    ensures dst.written == old(dst.written) + Encode(f)[..Min(|Encode(f)|, old(dst.room))]
  {
    hide BigEndian;
    var header := new byte[5];
    header[0] := f.kind;
    PutUint32(header, 1, f.stream);
    assert header[..] == header[..1] + header[1..5] == Header(f);
    if f.kind == MUX_DATA {
      var lenBuf := new byte[4];
      PutUint32(lenBuf, 0, |f.data| % TWO32);
      assert lenBuf[..] == lenBuf[0..4];
      var data := header[..] + lenBuf[..];
      data := data + f.data;
      ok := dst.Write(data);
      return;
    }
    ok := dst.Write(header[..]);
  }

  method ReadFrame(src: ByteSource) returns (r: Option<Frame>)
    modifies src
    ensures match Decode(old(src.data))
            case Got(f, rest) => r == Some(f) && src.data == rest
            case EndOfFrames => r == None
  {
    hide FromBigEndian;
    ghost var s := src.data;
    var header := new byte[5];
    var ok := src.ReadFull(header, 0, 5);
    if !ok {
      return None;
    }
    assert header[..] == header[0..5] == s[..5];
    var kind, stream := header[0], FromBigEndian(header[1..5]);
    assert header[1..5] == s[1..5];
    if kind != MUX_DATA {
      return Some(Frame(kind, stream, []));
    }
    var lenBuf := new byte[4];
    ok := src.ReadFull(lenBuf, 0, 4);
    if !ok {
      return None;
    }
    assert lenBuf[..] == lenBuf[0..4] == s[5..9];
    var dataLen := FromBigEndian(lenBuf[..]);
    var data := new byte[dataLen];
    ok := src.ReadFull(data, 0, dataLen);
    if !ok {
      return None;
    }
    assert data[..] == data[0..dataLen] == s[9..9 + dataLen];
    return Some(Frame(kind, stream, data[..]));
  }
}
