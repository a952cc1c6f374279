/**
 * VarInt and VarLong (packet/varint.go): unsigned LEB128 of the two's-complement bits, at most
 * 5 bytes for 32-bit and 10 bytes for 64-bit values.
 *
 * `Leb128` and `Scan` are the reference encoder and decoder, on unbounded naturals; the methods
 * below them follow the source's switch and bit-accumulating loops and are proved against them.
 */
module VarInt {
  import opened Bytes

  const MAX_VARINT_LEN := 5
  const MAX_VARLONG_LEN := 10

  // ---------------------------------------------------------------- reference encoder and decoder

  /** Unsigned LEB128 (section 7.6 of DWARF 5). */
  function Leb128(u: nat): (s: seq<byte>)
    ensures |s| > 0
  {
    if u < 128 then [u] else [(u % 128 + 128)] + Leb128(u / 128)
  }

  /** `Value`: the groups read, least significant first, and how many bytes they took. */
  datatype Scanned = Value(raw: nat, used: nat) | Short | Malformed

  /** Reads 7-bit groups up to the first byte without continuation bit, giving up after `limit`. */
  function Scan(s: seq<byte>, limit: nat): (r: Scanned)
    requires limit > 0
    ensures r.Value? ==> 0 < r.used <= limit && r.used <= |s|
    ensures r.Malformed? ==> limit <= |s|
    decreases limit
  {
    if s == [] then Short
    else if s[0] < 128 then Value(s[0], 1)
    else if limit == 1 then Malformed
    else match Scan(s[1..], limit - 1)
      case Value(raw, used) => Value(s[0] % 128 + 128 * raw, used + 1)
      case other => other
  }

  datatype Decoded = Ok(value: int, rest: seq<byte>) | Err(error: Error)

  /** What a VarInt at the front of `s` means: its 32-bit value and the bytes after it. */
  function DecodeVarInt(s: seq<byte>): (r: Decoded)
    ensures r.Ok? ==> -TWO31 <= r.value < TWO31 && |r.rest| < |s| && r.rest == s[|s| - |r.rest|..]
    ensures r.Err? ==> r.error == PacketTooShort || (r.error == MalformedVarInt && |s| >= MAX_VARINT_LEN)
  {
    match Scan(s, MAX_VARINT_LEN)
    case Value(raw, used) => Ok(Signed32(raw % TWO32), s[used..])
    case Short => Err(PacketTooShort)
    case Malformed => Err(MalformedVarInt)
  }

  function DecodeVarLong(s: seq<byte>): (r: Decoded)
    ensures r.Ok? ==> -TWO63 <= r.value < TWO63 && |r.rest| < |s| && r.rest == s[|s| - |r.rest|..]
    ensures r.Err? ==> r.error == PacketTooShort || (r.error == MalformedVarLong && |s| >= MAX_VARLONG_LEN)
  {
    match Scan(s, MAX_VARLONG_LEN)
    case Value(raw, used) => Ok(Signed64(raw % TWO64), s[used..])
    case Short => Err(PacketTooShort)
    case Malformed => Err(MalformedVarLong)
  }

  function EncodeVarInt(v: int32): seq<byte> {
    Leb128(Unsigned32(v))
  }

  function EncodeVarLong(v: int64): seq<byte> {
    Leb128(Unsigned64(v))
  }

  // ---------------------------------------------------------------- lengths

  function VarIntLen(num: int32): (n: nat)
    ensures 1 <= n <= 5
  {
    var u := Unsigned32(num);
    if u < 0x80 then 1
    else if u < 0x4000 then 2
    else if u < 0x200000 then 3
    else if u < 0x10000000 then 4
    else 5
  }

  function VarLongLen(num: int64): (n: nat)
    ensures 1 <= n <= 10
  {
    var u := Unsigned64(num);
    if u < 0x80 then 1
    else if u < 0x4000 then 2
    else if u < 0x200000 then 3
    else if u < 0x10000000 then 4
    else if u < 0x800000000 then 5
    else if u < 0x40000000000 then 6
    else if u < 0x2000000000000 then 7
    else if u < 0x100000000000000 then 8
    else if u < 0x8000000000000000 then 9
    else 10
  }

  function Pow128(k: nat): (p: nat)
    ensures p > 0
  {
    if k == 0 then 1 else 128 * Pow128(k - 1)
  }

  /** The reference encoding has k bytes exactly for the values below 128^k and not below 128^(k-1). */
  lemma {:induction false} LebLength(u: nat, k: nat)
    requires k > 0
    ensures |Leb128(u)| <= k <==> u < Pow128(k)
    decreases k
  {
    if k == 1 {
      assert Pow128(1) == 128 * Pow128(0) == 128;
    } else if u >= 128 {
      LebLength(u / 128, k - 1);
      assert u / 128 < Pow128(k - 1) <==> u < 128 * Pow128(k - 1);
    } else {
      assert Pow128(k) >= 128 * 1;
    }
  }

  lemma Pow128Values()
    ensures Pow128(1) == 0x80 && Pow128(2) == 0x4000 && Pow128(3) == 0x200000 && Pow128(4) == 0x10000000
    ensures Pow128(5) == 0x800000000 && Pow128(6) == 0x40000000000 && Pow128(7) == 0x2000000000000
    ensures Pow128(8) == 0x100000000000000 && Pow128(9) == 0x8000000000000000
    ensures Pow128(10) == 0x400000000000000000
  {
    assert Pow128(0) == 1;
    assert Pow128(4) == 128 * Pow128(3);
    assert Pow128(6) == 128 * Pow128(5);
    assert Pow128(8) == 128 * Pow128(7);
  }

  /** VarIntLen is the length of the encoding. */
  lemma VarIntLenExact(v: int32)
    ensures VarIntLen(v) == |EncodeVarInt(v)|
  {
    Pow128Values();
    var u := Unsigned32(v);
    LebLength(u, 1); LebLength(u, 2); LebLength(u, 3); LebLength(u, 4); LebLength(u, 5);
  }

  lemma VarLongLenExact(v: int64)
    ensures VarLongLen(v) == |EncodeVarLong(v)|
  {
    Pow128Values();
    var u := Unsigned64(v);
    LebLength(u, 1); LebLength(u, 2); LebLength(u, 3); LebLength(u, 4); LebLength(u, 5);
    LebLength(u, 6); LebLength(u, 7); LebLength(u, 8); LebLength(u, 9); LebLength(u, 10);
  }

  lemma VarIntAtMost(v: int32)
    ensures |EncodeVarInt(v)| <= 5
  {
    VarIntLenExact(v);
  }

  lemma VarLongAtMost(v: int64)
    ensures |EncodeVarLong(v)| <= 10
  {
    VarLongLenExact(v);
  }

  // ---------------------------------------------------------------- round trips

  lemma {:induction false} ScanLeb(u: nat, suffix: seq<byte>, limit: nat)
    requires |Leb128(u)| <= limit
    ensures Scan(Leb128(u) + suffix, limit) == Value(u, |Leb128(u)|)
    decreases u
  {
    var s := Leb128(u) + suffix;
    if u < 128 {
      assert s[0] == u;
    } else {
      assert s[1..] == Leb128(u / 128) + suffix;
      assert s[0] == u % 128 + 128;
      ScanLeb(u / 128, suffix, limit - 1);
    }
  }

  lemma DecodeScanned32(s: seq<byte>, u: uint32, used: nat)
    requires Scan(s, MAX_VARINT_LEN) == Value(u, used)
    ensures DecodeVarInt(s) == Ok(Signed32(u), s[used..])
  {
    assert u % TWO32 == u;
  }

  lemma DecodeScanned64(s: seq<byte>, u: uint64, used: nat)
    requires Scan(s, MAX_VARLONG_LEN) == Value(u, used)
    ensures DecodeVarLong(s) == Ok(Signed64(u), s[used..])
  {
    assert u % TWO64 == u;
  }

  /** Decoding undoes encoding and leaves whatever follows untouched. */
  lemma VarIntRoundTrip(v: int32, suffix: seq<byte>)
    ensures DecodeVarInt(EncodeVarInt(v) + suffix) == Ok(v, suffix)
  {
    var u, s := Unsigned32(v), EncodeVarInt(v);
    VarIntAtMost(v);
    ScanLeb(u, suffix, MAX_VARINT_LEN);
    DecodeScanned32(s + suffix, u, |s|);
    assert (s + suffix)[|s|..] == suffix;
  }

  lemma VarLongRoundTrip(v: int64, suffix: seq<byte>)
    ensures DecodeVarLong(EncodeVarLong(v) + suffix) == Ok(v, suffix)
  {
    var u, s := Unsigned64(v), EncodeVarLong(v);
    VarLongAtMost(v);
    ScanLeb(u, suffix, MAX_VARLONG_LEN);
    DecodeScanned64(s + suffix, u, |s|);
    assert (s + suffix)[|s|..] == suffix;
  }

  /** No encoding is a proper prefix of another. */
  lemma VarIntPrefixFree(v: int32, w: int32)
    requires EncodeVarInt(v) <= EncodeVarInt(w)
    ensures v == w
  {
    var s, t := EncodeVarInt(v), EncodeVarInt(w);
    assert t == s + t[|s|..];
    VarIntRoundTrip(v, t[|s|..]);
    VarIntRoundTrip(w, []);
    assert t + [] == t;
  }

  lemma VarLongPrefixFree(v: int64, w: int64)
    requires EncodeVarLong(v) <= EncodeVarLong(w)
    ensures v == w
  {
    var s, t := EncodeVarLong(v), EncodeVarLong(w);
    assert t == s + t[|s|..];
    VarLongRoundTrip(v, t[|s|..]);
    VarLongRoundTrip(w, []);
    assert t + [] == t;
  }

  // ---------------------------------------------------------------- what the bytes mean

  /** The sum of the groups, each by its place: group i counts 128^i. */
  function PlaceValue(s: seq<byte>): nat {
    if s == [] then 0 else PlaceValue(s[..|s| - 1]) + s[|s| - 1] % 128 * Pow128(|s| - 1)
  }

  lemma {:induction false} PlaceValueFront(s: seq<byte>)
    requires s != []
    ensures PlaceValue(s) == s[0] % 128 + 128 * PlaceValue(s[1..])
    decreases |s|
  {
    var n := |s| - 1;
    if n == 0 {
      assert s[..0] == [] && Pow128(0) == 1;
    } else {
      var t := s[1..];
      PlaceValueFront(s[..n]);
      assert s[..n][1..] == t[..n - 1] && t[n - 1] == s[n];
      var g: int := s[n];
      Regroup(PlaceValue(t[..n - 1]), g % 128, Pow128(n - 1));
    }
  }

  lemma Regroup(x: int, g: int, p: int)
    ensures 128 * x + g * (128 * p) == 128 * (x + g * p)
  {
  }

  /** The number ends at the first byte without continuation bit. */
  lemma {:induction false} ScanMeans(s: seq<byte>, k: nat, limit: nat)
    requires k < |s| && k < limit && s[k] < 128 && forall i :: 0 <= i < k ==> s[i] >= 128
    ensures Scan(s, limit) == Value(PlaceValue(s[..k + 1]), k + 1)
    decreases k
  {
    PlaceValueFront(s[..k + 1]);
    if k > 0 {
      assert s[..k + 1][1..] == s[1..][..k];
      ScanMeans(s[1..], k - 1, limit - 1);
    }
  }

  lemma {:induction false} ScanEndless(s: seq<byte>, limit: nat)
    requires limit > 0 && forall i :: 0 <= i < |s| && i < limit ==> s[i] >= 128
    ensures Scan(s, limit) == if |s| < limit then Short else Malformed
    decreases limit
  {
    if s != [] && limit > 1 { ScanEndless(s[1..], limit - 1); }
  }

  /** How many bytes with continuation bit a string begins with, up to the limit. */
  lemma {:induction false} Continuing(s: seq<byte>, limit: nat) returns (k: nat)
    ensures k <= |s| && k <= limit && (forall i :: 0 <= i < k ==> s[i] >= 128)
    ensures k < |s| && k < limit ==> s[k] < 128
    decreases limit
  {
    if s == [] || limit == 0 || s[0] < 128 {
      k := 0;
    } else {
      k := Continuing(s[1..], limit - 1);
      k := k + 1;
    }
  }

  lemma SignedMod32(raw: nat)
    ensures Signed32(raw % TWO32) % TWO32 == raw % TWO32
  {
    var u: int := raw % TWO32;
    DivUnique(u, TWO32, 0, u);
    DivUnique(u - TWO32, TWO32, -1, u);
  }

  lemma SignedMod64(raw: nat)
    ensures Signed64(raw % TWO64) % TWO64 == raw % TWO64
  {
    var u: int := raw % TWO64;
    DivUnique(u, TWO64, 0, u);
    DivUnique(u - TWO64, TWO64, -1, u);
  }

  /**
   * What any bytes mean, after the k bytes with continuation bit they begin with, five at most: the sum of the
   * groups up to and including the next byte, as a signed 32-bit number; or, if there is no next byte, too
   * short, and after five of them malformed.
   */
  lemma VarIntMeans(s: seq<byte>) returns (k: nat)
    ensures k <= |s| && k <= 5 && (forall i :: 0 <= i < k ==> s[i] >= 128) && (k < |s| && k < 5 ==> s[k] < 128)
    ensures k < |s| && k < 5 ==>
              && DecodeVarInt(s).Ok? && DecodeVarInt(s).rest == s[k + 1..]
              && DecodeVarInt(s).value % TWO32 == PlaceValue(s[..k + 1]) % TWO32
    ensures k == |s| < 5 ==> DecodeVarInt(s) == Err(PacketTooShort)
    ensures k == 5 ==> DecodeVarInt(s) == Err(MalformedVarInt)
  {
    hide Signed32, PlaceValue;
    k := Continuing(s, 5);
    if k < |s| && k < 5 {
      ScanMeans(s, k, 5);
      SignedMod32(PlaceValue(s[..k + 1]));
    } else {
      ScanEndless(s, 5);
    }
  }

  lemma VarLongMeans(s: seq<byte>) returns (k: nat)
    ensures k <= |s| && k <= 10 && (forall i :: 0 <= i < k ==> s[i] >= 128) && (k < |s| && k < 10 ==> s[k] < 128)
    ensures k < |s| && k < 10 ==>
              && DecodeVarLong(s).Ok? && DecodeVarLong(s).rest == s[k + 1..]
              && DecodeVarLong(s).value % TWO64 == PlaceValue(s[..k + 1]) % TWO64
    ensures k == |s| < 10 ==> DecodeVarLong(s) == Err(PacketTooShort)
    ensures k == 10 ==> DecodeVarLong(s) == Err(MalformedVarLong)
  {
    hide Signed64, PlaceValue;
    k := Continuing(s, 10);
    if k < |s| && k < 10 {
      ScanMeans(s, k, 10);
      SignedMod64(PlaceValue(s[..k + 1]));
    } else {
      ScanEndless(s, 10);
    }
  }

  // ---------------------------------------------------------------- which byte strings are accepted

  lemma {:induction false} ScanBound(s: seq<byte>, limit: nat)
    requires limit > 0 && Scan(s, limit).Value?
    ensures Scan(s, limit).raw < Pow128(Scan(s, limit).used)
    decreases limit
  {
    if s[0] < 128 {
      assert Pow128(1) == 128 * Pow128(0);
    } else {
      ScanBound(s[1..], limit - 1);
    }
  }

  /** The bytes after the VarInt do not influence it. */
  lemma {:induction false} ScanPrefix(s: seq<byte>, t: seq<byte>, limit: nat)
    requires limit > 0 && Scan(s, limit) != Short
    ensures Scan(s + t, limit) == Scan(s, limit)
    decreases limit
  {
    if s[0] >= 128 && limit > 1 {
      ScanPrefix(s[1..], t, limit - 1);
      assert (s + t)[1..] == s[1..] + t;
    }
  }

  /** Of all accepted byte strings for a value, the encoder's is a shortest one. */
  lemma VarIntShortest(s: seq<byte>, v: int32)
    requires DecodeVarInt(s).Ok? && DecodeVarInt(s).value == v
    ensures |EncodeVarInt(v)| <= |s| - |DecodeVarInt(s).rest|
  {
    var r := Scan(s, MAX_VARINT_LEN);
    ScanBound(s, MAX_VARINT_LEN);
    Pow128Values();
    SignedUnsigned(r.raw % TWO32);
    VarIntLenExact(v);
    LebLength(Unsigned32(v), r.used);
  }

  lemma VarLongShortest(s: seq<byte>, v: int64)
    requires DecodeVarLong(s).Ok? && DecodeVarLong(s).value == v
    ensures |EncodeVarLong(v)| <= |s| - |DecodeVarLong(s).rest|
  {
    var r := Scan(s, MAX_VARLONG_LEN);
    ScanBound(s, MAX_VARLONG_LEN);
    Pow128Values();
    SignedUnsigned64(r.raw % TWO64);
    VarLongLenExact(v);
    if r.used < 10 {
      assert r.raw < Pow128(9) by { Pow128Grows(r.used, 9); }
      LebLength(Unsigned64(v), r.used);
    }
  }

  lemma {:induction false} Pow128Grows(j: nat, k: nat)
    requires j <= k
    ensures Pow128(j) <= Pow128(k)
    decreases k
  {
    if j < k { Pow128Grows(j, k - 1); }
  }

  /** A scanned string is the reference encoding of what it denotes unless it ends in a redundant zero group. */
  lemma {:induction false} ScanCanonical(s: seq<byte>, limit: nat)
    requires limit > 0 && Scan(s, limit).Value? && Scan(s, limit).used == |s|
    ensures s == Leb128(Scan(s, limit).raw) <==> |s| == 1 || s[|s| - 1] != 0
    ensures |s| > 1 && s[|s| - 1] != 0 ==> Scan(s, limit).raw >= 128
    decreases limit
  {
    var raw := Scan(s, limit).raw;
    if s[0] >= 128 {
      ScanCanonical(s[1..], limit - 1);
      var tail := Scan(s[1..], limit - 1).raw;
      assert raw % 128 == s[0] % 128 && raw / 128 == tail;
      if |s| > 2 || tail != 0 {
        assert |s| == 2 ==> s[1] == tail;
        if raw >= 128 {
          assert Leb128(raw) == [s[0]] + Leb128(tail);
          assert Leb128(raw)[1..] == Leb128(tail);
          assert s == [s[0]] + s[1..];
        }
      } else {
        assert s[1] == 0;
      }
    }
  }

  /**
   * The decoder takes more strings than the encoder writes. An accepted string is the encoder's own
   * exactly when its last group is not a redundant zero and, in the five-byte form, does not set
   * bits beyond the 32nd.
   */
  lemma VarIntCanonicalExactly(s: seq<byte>, v: int32)
    requires DecodeVarInt(s) == Ok(v, [])
    ensures s == EncodeVarInt(v) <==>
              (|s| == 1 || s[|s| - 1] != 0) && (|s| == 5 ==> s[4] < 16)
  {
    RawFits(s);
    if Scan(s, MAX_VARINT_LEN).raw < TWO32 {
      CanonicalIfFits(s, v);
    } else {
      NotCanonicalIfWrapped(s, v);
    }
  }

  lemma CanonicalIfFits(s: seq<byte>, v: int32)
    requires DecodeVarInt(s) == Ok(v, []) && Scan(s, MAX_VARINT_LEN).raw < TWO32
    ensures s == EncodeVarInt(v) <==> |s| == 1 || s[|s| - 1] != 0
  {
    WholeScan(s, v);
    ScanCanonical(s, MAX_VARINT_LEN);
  }

  lemma WholeScan(s: seq<byte>, v: int32)
    requires DecodeVarInt(s) == Ok(v, []) && Scan(s, MAX_VARINT_LEN).raw < TWO32
    ensures Scan(s, MAX_VARINT_LEN) == Value(Unsigned32(v), |s|)
  {
    match Scan(s, MAX_VARINT_LEN)
    case Value(raw, used) => SignedOf(raw, v);
    case other =>
  }

  lemma SignedOf(raw: nat, v: int32)
    requires raw < TWO32 && v == Signed32(raw % TWO32)
    ensures Unsigned32(v) == raw
  {
  }

  lemma NotCanonicalIfWrapped(s: seq<byte>, v: int32)
    requires Scan(s, MAX_VARINT_LEN).Value? && Scan(s, MAX_VARINT_LEN).raw >= TWO32
    ensures s != EncodeVarInt(v)
  {
    ScanEncoded(v);
  }

  lemma ScanEncoded(v: int32)
    ensures Scan(EncodeVarInt(v), MAX_VARINT_LEN) == Value(Unsigned32(v), VarIntLen(v))
  {
    VarIntLenExact(v);
    ScanLeb(Unsigned32(v), [], MAX_VARINT_LEN);
    assert EncodeVarInt(v) + [] == EncodeVarInt(v);
  }

  lemma RawFits(s: seq<byte>)
    requires Scan(s, 5).Value? && Scan(s, 5).used == |s|
    ensures Scan(s, 5).raw < TWO32 <==> (|s| == 5 ==> s[4] < 16)
  {
    ScanBound(s, 5);
    Pow128Values();
    if |s| < 5 {
      Pow128Grows(|s|, 4);
    } else {
      FifthByte(s);
    }
  }

  lemma FifthByte(s: seq<byte>)
    requires |s| == 5 && Scan(s, 5).Value? && Scan(s, 5).used == 5
    ensures s[4] == Scan(s, 5).raw / 0x10000000
  {
    var s1, s2, s3, s4 := s[1..], s[2..], s[3..], s[4..];
    assert s1[1..] == s2 && s2[1..] == s3 && s3[1..] == s4;
    assert Scan(s, 5).raw == s[0] % 128 + 128 * Scan(s1, 4).raw;
    assert Scan(s1, 4).raw == s[1] % 128 + 128 * Scan(s2, 3).raw;
    assert Scan(s2, 3).raw == s[2] % 128 + 128 * Scan(s3, 2).raw;
    assert Scan(s3, 2).raw == s[3] % 128 + 128 * Scan(s4, 1).raw;
  }
}
