/** The switch-based writers and the four reading loops of packet/varint.go and packet/packet.go. */
module VarIntCodec {
  import opened Bytes
  import opened Streams
  import opened VarInt

  // ---------------------------------------------------------------- writing

  /** byte(u): the low eight bits. */
  function LowByte(u: nat): byte {
    u % 256
  }

  /** u >> 7i. */
  function Shr7(u: nat, i: nat): nat {
    if i == 0 then u else Shr7(u / 128, i - 1)
  }

  /** x | 0x80: the low seven bits of x, and the continuation bit. */
  function WithMore(x: byte): byte {
    x % 128 + 128
  }

  lemma LebStep(u: nat)
    requires u >= 128
    ensures Leb128(u) == [WithMore(LowByte(u))] + Leb128(u / 128)
  {
    hide Leb128;
    LebUnfold(u);
    LowGroup(u);
  }

  lemma LebUnfold(u: nat)
    requires u >= 128
    ensures Leb128(u) == [u % 128 + 128] + Leb128(u / 128)
  {
  }

  lemma LowGroup(u: int)
    ensures u % 256 % 128 == u % 128
  {
    var q, r := u / 256, u % 256;
    var q', r' := r / 128, r % 128;
    assert u == 128 * (2 * q + q') + r';
    DivUnique(u, 128, 2 * q + q', r');
  }

  /** The bytes of an encoding that is `k` bytes long, one shift at a time. */
  function Groups(u: nat, k: nat): (s: seq<byte>)
    requires k > 0
    ensures |s| == k
  {
    if k == 1 then [LowByte(u)] else [WithMore(LowByte(u))] + Groups(u / 128, k - 1)
  }

  lemma {:induction false} GroupsAreLeb(u: nat)
    ensures Groups(u, |Leb128(u)|) == Leb128(u)
  {
    if u >= 128 {
      LebStep(u);
      GroupsAreLeb(u / 128);
    }
  }

  /** PutVarInt(buf[off:], num). */
  method PutVarInt(buf: array<byte>, off: nat, num: int32) returns (n: nat)
    requires off + VarIntLen(num) <= buf.Length
    modifies buf
    ensures n == VarIntLen(num) == |EncodeVarInt(num)|
    ensures buf[off..off + n] == EncodeVarInt(num)
    ensures buf[..off] == old(buf[..off]) && buf[off + n..] == old(buf[off + n..])
  {
    var u := Unsigned32(num);
    if u < 0x80 {
      buf[off] := LowByte(u);
      n := 1;
    } else if u < 0x4000 {
      buf[off] := WithMore(LowByte(u));
      buf[off + 1] := LowByte(Shr7(u, 1));
      n := 2;
    } else if u < 0x200000 {
      buf[off] := WithMore(LowByte(u));
      buf[off + 1] := WithMore(LowByte(Shr7(u, 1)));
      buf[off + 2] := LowByte(Shr7(u, 2));
      n := 3;
    } else if u < 0x10000000 {
      buf[off] := WithMore(LowByte(u));
      buf[off + 1] := WithMore(LowByte(Shr7(u, 1)));
      buf[off + 2] := WithMore(LowByte(Shr7(u, 2)));
      buf[off + 3] := LowByte(Shr7(u, 3));
      n := 4;
    } else {
      buf[off] := WithMore(LowByte(u));
      buf[off + 1] := WithMore(LowByte(Shr7(u, 1)));
      buf[off + 2] := WithMore(LowByte(Shr7(u, 2)));
      buf[off + 3] := WithMore(LowByte(Shr7(u, 3)));
      buf[off + 4] := LowByte(Shr7(u, 4));
      n := 5;
    }
    VarIntLenExact(num);
    GroupsAreLeb(u);
    GroupsByShift(u, n);
    assert buf[off..off + n] == Groups(u, n);
  }

  /** PutVarLong(buf[off:], num); its ten cases are split in three methods by length. */
  method PutVarLong(buf: array<byte>, off: nat, num: int64) returns (n: nat)
    requires off + VarLongLen(num) <= buf.Length
    modifies buf
    ensures n == VarLongLen(num) == |EncodeVarLong(num)|
    ensures buf[off..off + n] == EncodeVarLong(num)
    ensures buf[..off] == old(buf[..off]) && buf[off + n..] == old(buf[off + n..])
  {
    var u := Unsigned64(num);
    if u < 0x800000000 {
      n := PutUpTo5(buf, off, num);
    } else if u < 0x100000000000000 {
      n := PutUpTo8(buf, off, num);
    } else {
      n := PutUpTo10(buf, off, num);
    }
  }

  /** The cases of one to five bytes. */
  method PutUpTo5(buf: array<byte>, off: nat, num: int64) returns (n: nat)
    requires VarLongLen(num) <= 5
    requires off + VarLongLen(num) <= buf.Length
    modifies buf
    ensures n == VarLongLen(num) == |EncodeVarLong(num)|
    ensures buf[off..off + n] == EncodeVarLong(num)
    ensures buf[..off] == old(buf[..off]) && buf[off + n..] == old(buf[off + n..])
  {
    var u := Unsigned64(num);
    if u < 0x80 {
      buf[off] := LowByte(u);
      n := 1;
    } else if u < 0x4000 {
      buf[off] := WithMore(LowByte(u));
      buf[off + 1] := LowByte(Shr7(u, 1));
      n := 2;
    } else if u < 0x200000 {
      buf[off] := WithMore(LowByte(u));
      buf[off + 1] := WithMore(LowByte(Shr7(u, 1)));
      buf[off + 2] := LowByte(Shr7(u, 2));
      n := 3;
    } else if u < 0x10000000 {
      buf[off] := WithMore(LowByte(u));
      buf[off + 1] := WithMore(LowByte(Shr7(u, 1)));
      buf[off + 2] := WithMore(LowByte(Shr7(u, 2)));
      buf[off + 3] := LowByte(Shr7(u, 3));
      n := 4;
    } else {
      buf[off] := WithMore(LowByte(u));
      buf[off + 1] := WithMore(LowByte(Shr7(u, 1)));
      buf[off + 2] := WithMore(LowByte(Shr7(u, 2)));
      buf[off + 3] := WithMore(LowByte(Shr7(u, 3)));
      buf[off + 4] := LowByte(Shr7(u, 4));
      n := 5;
    }
    VarLongLenExact(num);
    GroupsAreLeb(u);
    GroupsByShift(u, n);
    assert buf[off..off + n] == Groups(u, n);
  }

  /** The cases of six to eight bytes. */
  method PutUpTo8(buf: array<byte>, off: nat, num: int64) returns (n: nat)
    requires 6 <= VarLongLen(num) <= 8
    requires off + VarLongLen(num) <= buf.Length
    modifies buf
    ensures n == VarLongLen(num) == |EncodeVarLong(num)|
    ensures buf[off..off + n] == EncodeVarLong(num)
    ensures buf[..off] == old(buf[..off]) && buf[off + n..] == old(buf[off + n..])
  {
    var u := Unsigned64(num);
    if u < 0x40000000000 {
      buf[off] := WithMore(LowByte(u));
      buf[off + 1] := WithMore(LowByte(Shr7(u, 1)));
      buf[off + 2] := WithMore(LowByte(Shr7(u, 2)));
      buf[off + 3] := WithMore(LowByte(Shr7(u, 3)));
      buf[off + 4] := WithMore(LowByte(Shr7(u, 4)));
      buf[off + 5] := LowByte(Shr7(u, 5));
      n := 6;
    } else if u < 0x2000000000000 {
      buf[off] := WithMore(LowByte(u));
      buf[off + 1] := WithMore(LowByte(Shr7(u, 1)));
      buf[off + 2] := WithMore(LowByte(Shr7(u, 2)));
      buf[off + 3] := WithMore(LowByte(Shr7(u, 3)));
      buf[off + 4] := WithMore(LowByte(Shr7(u, 4)));
      buf[off + 5] := WithMore(LowByte(Shr7(u, 5)));
      buf[off + 6] := LowByte(Shr7(u, 6));
      n := 7;
    } else {
      buf[off] := WithMore(LowByte(u));
      buf[off + 1] := WithMore(LowByte(Shr7(u, 1)));
      buf[off + 2] := WithMore(LowByte(Shr7(u, 2)));
      buf[off + 3] := WithMore(LowByte(Shr7(u, 3)));
      buf[off + 4] := WithMore(LowByte(Shr7(u, 4)));
      buf[off + 5] := WithMore(LowByte(Shr7(u, 5)));
      buf[off + 6] := WithMore(LowByte(Shr7(u, 6)));
      buf[off + 7] := LowByte(Shr7(u, 7));
      n := 8;
    }
    VarLongLenExact(num);
    GroupsAreLeb(u);
    GroupsByShift(u, n);
    assert buf[off..off + n] == Groups(u, n);
  }

  /** The cases of nine and ten bytes. */
  method PutUpTo10(buf: array<byte>, off: nat, num: int64) returns (n: nat)
    requires 9 <= VarLongLen(num)
    requires off + VarLongLen(num) <= buf.Length
    modifies buf
    ensures n == VarLongLen(num) == |EncodeVarLong(num)|
    ensures buf[off..off + n] == EncodeVarLong(num)
    ensures buf[..off] == old(buf[..off]) && buf[off + n..] == old(buf[off + n..])
  {
    var u := Unsigned64(num);
    if u < 0x8000000000000000 {
      buf[off] := WithMore(LowByte(u));
      buf[off + 1] := WithMore(LowByte(Shr7(u, 1)));
      buf[off + 2] := WithMore(LowByte(Shr7(u, 2)));
      buf[off + 3] := WithMore(LowByte(Shr7(u, 3)));
      buf[off + 4] := WithMore(LowByte(Shr7(u, 4)));
      buf[off + 5] := WithMore(LowByte(Shr7(u, 5)));
      buf[off + 6] := WithMore(LowByte(Shr7(u, 6)));
      buf[off + 7] := WithMore(LowByte(Shr7(u, 7)));
      buf[off + 8] := LowByte(Shr7(u, 8));
      n := 9;
    } else {
      buf[off] := WithMore(LowByte(u));
      buf[off + 1] := WithMore(LowByte(Shr7(u, 1)));
      buf[off + 2] := WithMore(LowByte(Shr7(u, 2)));
      buf[off + 3] := WithMore(LowByte(Shr7(u, 3)));
      buf[off + 4] := WithMore(LowByte(Shr7(u, 4)));
      buf[off + 5] := WithMore(LowByte(Shr7(u, 5)));
      buf[off + 6] := WithMore(LowByte(Shr7(u, 6)));
      buf[off + 7] := WithMore(LowByte(Shr7(u, 7)));
      buf[off + 8] := WithMore(LowByte(Shr7(u, 8)));
      buf[off + 9] := LowByte(Shr7(u, 9));
      n := 10;
    }
    VarLongLenExact(num);
    GroupsAreLeb(u);
    GroupsByShift(u, n);
    assert buf[off..off + n] == Groups(u, n);
  }

  /** Byte i of the groups comes from the value shifted right by 7i bits. */
  lemma {:induction false} GroupsByShift(u: nat, k: nat)
    requires k > 0
    ensures forall i :: 0 <= i < k ==>
      Groups(u, k)[i] == if i < k - 1 then WithMore(LowByte(Shr7(u, i))) else LowByte(Shr7(u, i))
    decreases k
  {
    if k > 1 {
      GroupsByShift(u / 128, k - 1);
    }
  }

  // ---------------------------------------------------------------- reading

  /** The i-th group on top of what the earlier groups are worth. */
  function Plus(val: nat, b: byte, i: nat): (v: nat) {
    assert b % 128 * Pow128(i) >= 0;
    val + b % 128 * Pow128(i)
  }

  /**
   * val | group << 7i on 32 bits. The bits of `val` all lie below the shift, so the disjunction is a
   * sum; what the fifth group shifts past bit 31 is lost.
   */
  function Accumulate32(val: nat, b: byte, i: nat): (v: uint32) {
    Plus(val, b, i) % TWO32
  }

  function Accumulate64(val: nat, b: byte, i: nat): (v: uint64) {
    Plus(val, b, i) % TWO64
  }

  /** The outcome of a scan of which `i` groups, worth `val`, were already taken. */
  function Resumed(val: nat, i: nat, r: Scanned): Scanned {
    match r
    case Value(raw, used) => Value(val + Pow128(i) * raw, i + used)
    case other => other
  }

  /** One more continued group moves from the rest of the scan to the part already taken. */
  lemma ResumeStep(s: seq<byte>, i: nat, val: nat, limit: nat)
    requires i < |s| && i + 1 < limit && s[i] >= 128
    ensures Resumed(val, i, Scan(s[i..], limit - i)) ==
            Resumed(Plus(val, s[i], i), i + 1, Scan(s[i + 1..], limit - i - 1))
  {
    assert s[i..][1..] == s[i + 1..];
    var tail := Scan(s[i + 1..], limit - i - 1);
    if tail.Value? {
      var p, g, raw := Pow128(i), s[i] % 128, tail.raw;
      assert Pow128(i + 1) == 128 * p;
      assert val + p * (g + 128 * raw) == (val + g * p) + (128 * p) * raw;
    }
  }

  lemma ResumeEnd(s: seq<byte>, i: nat, val: nat, limit: nat)
    requires i < limit && (i < |s| ==> s[i] < 128 || i + 1 == limit) && i <= |s|
    ensures Resumed(val, i, Scan(s[i..], limit - i)) ==
            if i == |s| then Short
            else if s[i] < 128 then Value(Plus(val, s[i], i), i + 1)
            else Malformed
  {
  }

  /** Four groups stay below 2^28, nine below 2^63: only the last one can wrap. */
  lemma GroupsSmall(val: nat, b: byte, i: nat)
    requires val < Pow128(i)
    ensures Plus(val, b, i) < Pow128(i + 1)
    ensures i < 4 ==> Accumulate32(val, b, i) == Plus(val, b, i)
    ensures i < 9 ==> Accumulate64(val, b, i) == Plus(val, b, i)
  {
    hide Pow128;
    var x: int := b;
    GroupAbove(val, x % 128, Pow128(i));
    Pow128Next(i);
    Pow128Values();
    if i < 4 {
      Pow128Grows(i + 1, 4);
      SmallRemainder(Plus(val, b, i), TWO32);
    }
    if i < 9 {
      Pow128Grows(i + 1, 9);
      SmallRemainder(Plus(val, b, i), TWO64);
    }
  }

  lemma GroupAbove(val: int, g: int, p: int)
    requires 0 <= val < p && 0 <= g <= 127
    ensures 0 <= val + g * p < 128 * p
  {
    assert g * p <= 127 * p;
  }

  lemma Pow128Next(i: nat)
    ensures Pow128(i + 1) == 128 * Pow128(i)
  {
  }

  lemma SmallRemainder(x: int, m: int)
    requires 0 <= x < m
    ensures x % m == x
  {
    DivUnique(x, m, 0, x);
  }

  /** `i` continued groups worth `val` have been taken off the front of `s`. */
  ghost predicate Reading(s: seq<byte>, i: nat, val: nat, limit: nat) {
    && i < limit && i <= |s|
    && val < Pow128(i)
    && Resumed(val, i, Scan(s[i..], limit - i)) == Scan(s, limit)
  }

  lemma ReadingStart(s: seq<byte>, limit: nat)
    requires limit > 0
    ensures Reading(s, 0, 0, limit)
  {
    assert s[0..] == s;
    assert Pow128(0) == 1;
  }

  lemma ReadingStep(s: seq<byte>, i: nat, val: nat, limit: nat)
    requires Reading(s, i, val, limit) && i < |s| && s[i] >= 128 && i + 1 < limit <= 10
    ensures Reading(s, i + 1, Plus(val, s[i], i), limit)
    ensures limit <= 5 ==> Accumulate32(val, s[i], i) == Plus(val, s[i], i)
    ensures Accumulate64(val, s[i], i) == Plus(val, s[i], i)
  {
    GroupsSmall(val, s[i], i);
    ResumeStep(s, i, val, limit);
  }

  /** Where a loop over the groups ends, and what it then has. */
  lemma ReadingEnd(s: seq<byte>, i: nat, val: nat, limit: nat)
    requires Reading(s, i, val, limit)
    requires i < |s| ==> s[i] < 128 || i + 1 == limit
    ensures Scan(s, limit) ==
            if i == |s| then Short
            else if s[i] < 128 then Value(Plus(val, s[i], i), i + 1)
            else Malformed
  {
    ResumeEnd(s, i, val, limit);
  }

  /** ReadVarIntFromBytes: the loop over a slice. */
  method ReadVarIntFromBytes(data: seq<byte>) returns (r: Decoded)
    ensures r == DecodeVarInt(data)
  {
    hide Scan, Plus, Resumed;
    if |data| == 0 {
      ReadingStart(data, 5);
      ReadingEnd(data, 0, 0, 5);
      return Err(PacketTooShort);
    }
    var val: uint32 := 0;
    var i := 0;
    ReadingStart(data, 5);
    while i < |data|
      invariant 0 <= i && Reading(data, i, val, 5)
    {
      var b := data[i];
      if b < 128 {
        ReadingEnd(data, i, val, 5);
        return Ok(Signed32(Accumulate32(val, b, i)), data[i + 1..]);
      }
      if i + 1 >= 5 {
        ReadingEnd(data, i, val, 5);
        return Err(MalformedVarInt);
      }
      ReadingStep(data, i, val, 5);
      val := Accumulate32(val, b, i);
      i := i + 1;
    }
    ReadingEnd(data, i, val, 5);
    return Err(PacketTooShort);
  }

  // ReadVarInt and ReadVarLong discard up to ten more bytes of a malformed number.

  /** DiscardVarInt of internal/varint.go: what it leaves of the stream. */
  function AfterDiscard(s: seq<byte>, fuel: nat): seq<byte> {
    if fuel == 0 || s == [] then s
    else if s[0] < 128 then s[1..]
    else AfterDiscard(s[1..], fuel - 1)
  }

  /** It takes up to ten bytes, and stops behind the first one without continuation bit. */
  lemma {:induction false} DiscardExactly(s: seq<byte>, fuel: nat) returns (k: nat)
    ensures k <= |s| && k <= fuel && AfterDiscard(s, fuel) == s[k..]
    ensures forall i :: 0 <= i < k - 1 ==> s[i] >= 128
    ensures k < |s| && k < fuel ==> k > 0 && s[k - 1] < 128
    decreases fuel
  {
    if fuel == 0 || s == [] {
      k := 0;
    } else if s[0] < 128 {
      k := 1;
    } else {
      k := DiscardExactly(s[1..], fuel - 1);
      assert s[1..][k..] == s[k + 1..];
      k := k + 1;
    }
  }

  method DiscardVarInt(src: ByteSource)
    modifies src
    ensures src.data == AfterDiscard(old(src.data), 10)
  {
    var i := 0;
    while i < 10
      invariant 0 <= i <= 10
      invariant AfterDiscard(src.data, 10 - i) == AfterDiscard(old(src.data), 10)
    {
      var ok, b := src.ReadByte();
      if !ok || b < 128 {
        return;
      }
      i := i + 1;
    }
  }

  datatype FromStream = Number(value: int) | NoNumber(error: Error)

  /** What ReadVarInt takes from a stream, and what it leaves. */
  function VarIntFromStream(s: seq<byte>): (FromStream, seq<byte>) {
    match DecodeVarInt(s)
    case Ok(value, rest) => (Number(value), rest)
    case Err(e) =>
      if e == PacketTooShort then (NoNumber(EndOfStream), [])
      else (NoNumber(MalformedVarInt), AfterDiscard(s[MAX_VARINT_LEN..], 10))
  }

  function VarLongFromStream(s: seq<byte>): (FromStream, seq<byte>) {
    match DecodeVarLong(s)
    case Ok(value, rest) => (Number(value), rest)
    case Err(e) =>
      if e == PacketTooShort then (NoNumber(EndOfStream), [])
      else (NoNumber(MalformedVarLong), AfterDiscard(s[MAX_VARLONG_LEN..], 10))
  }

  /** ReadVarInt: the loop over an io.ByteReader. */
  method ReadVarInt(src: ByteSource) returns (r: FromStream)
    modifies src
    ensures (r, src.data) == VarIntFromStream(old(src.data))
  {
    hide Scan, Plus, Resumed;
    var val: uint32 := 0;
    ghost var s := src.data;
    var i := 0;
    ReadingStart(s, 5);
    while true
      invariant 0 <= i && Reading(s, i, val, 5) && src.data == s[i..]
      decreases 5 - i
    {
      var ok, b := src.ReadByte();
      if !ok {
        ReadingEnd(s, i, val, 5);
        return NoNumber(EndOfStream);
      }
      if b < 128 {
        ReadingEnd(s, i, val, 5);
        return Number(Signed32(Accumulate32(val, b, i)));
      }
      if i + 1 >= 5 {
        ReadingEnd(s, i, val, 5);
        DiscardVarInt(src);
        return NoNumber(MalformedVarInt);
      }
      ReadingStep(s, i, val, 5);
      val := Accumulate32(val, b, i);
      i := i + 1;
    }
  }

  /** ReadVarLong: the same over ten groups. */
  method ReadVarLong(src: ByteSource) returns (r: FromStream)
    modifies src
    ensures (r, src.data) == VarLongFromStream(old(src.data))
  {
    hide Scan, Plus, Resumed;
    var val: uint64 := 0;
    ghost var s := src.data;
    var i := 0;
    ReadingStart(s, 10);
    while true
      invariant 0 <= i && Reading(s, i, val, 10) && src.data == s[i..]
      decreases 10 - i
    {
      var ok, b := src.ReadByte();
      if !ok {
        ReadingEnd(s, i, val, 10);
        return NoNumber(EndOfStream);
      }
      if b < 128 {
        ReadingEnd(s, i, val, 10);
        return Number(Signed64(Accumulate64(val, b, i)));
      }
      if i + 1 >= 10 {
        ReadingEnd(s, i, val, 10);
        DiscardVarInt(src);
        return NoNumber(MalformedVarLong);
      }
      ReadingStep(s, i, val, 10);
      val := Accumulate64(val, b, i);
      i := i + 1;
    }
  }
}
