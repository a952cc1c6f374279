/** Bytes, machine integers and the small sequence vocabulary the other modules share. */
module Bytes {

  /** One octet, as a number. */
  type byte = x: int | 0 <= x < 256

  const TWO31 := 0x8000_0000
  const TWO32 := 0x1_0000_0000
  const TWO63 := 0x8000_0000_0000_0000
  const TWO64 := 0x1_0000_0000_0000_0000

  type int32 = x: int | -0x8000_0000 <= x < 0x8000_0000
  type int64 = x: int | -0x8000_0000_0000_0000 <= x < 0x8000_0000_0000_0000
  type uint32 = x: int | 0 <= x < 0x1_0000_0000
  type uint64 = x: int | 0 <= x < 0x1_0000_0000_0000_0000

  /** The errors of internal/errors.go that occur here, the end of a stream, and a run-time panic. */
  datatype Error =
    | PacketTooLarge
    | PacketTooShort
    | ConnectionClosed
    | CompressionFailed
    | MalformedVarInt
    | MalformedVarLong
    | QueueEmpty
    | EndOfStream
    | WriteFailed
    | Panic

  datatype Option<+T> = None | Some(value: T)

  /** The two's-complement bits of a 32-bit value, read as an unsigned number. */
  function Unsigned32(v: int32): (u: uint32)
    ensures Signed32(u) == v
  {
    if v < 0 then v + TWO32 else v
  }

  function Signed32(u: uint32): (v: int32)
  {
    if u >= TWO31 then u - TWO32 else u
  }

  function Unsigned64(v: int64): (u: uint64)
    ensures Signed64(u) == v
  {
    if v < 0 then v + TWO64 else v
  }

  function Signed64(u: uint64): (v: int64)
  {
    if u >= TWO63 then u - TWO64 else u
  }

  /** A conversion of a length to a 32-bit signed number keeps the low 32 bits. */
  function Truncate32(n: int): (v: int32)
    ensures 0 <= n < TWO31 ==> v == n
  {
    Signed32(n % TWO32)
  }

  lemma SignedUnsigned(u: uint32)
    ensures Unsigned32(Signed32(u)) == u
  {
  }

  lemma SignedUnsigned64(u: uint64)
    ensures Unsigned64(Signed64(u)) == u
  {
  }

  /** Quotient and remainder are unique. */
  lemma DivUnique(n: int, d: int, q: int, r: int)
    requires 0 <= r < d && n == d * q + r
    ensures n / d == q && n % d == r
  {
    var q', r' := n / d, n % d;
    assert n == d * q' + r' && 0 <= r' < d;
    assert d * (q' - q) == d * q' - d * q;
    SmallMultiple(d, q' - q);
  }

  lemma SmallMultiple(d: int, k: int)
    requires -d < d * k < d
    ensures k == 0
  {
    assert k >= 1 ==> d * k >= d;
    assert k <= -1 ==> d * k <= -d;
  }

  function Min(a: int, b: int): int {
    if a < b then a else b
  }

  ghost predicate Distinct<T>(s: seq<T>) {
    forall i, j :: 0 <= i < j < |s| ==> s[i] != s[j]
  }

  function Without<T>(s: seq<T>, k: nat): seq<T>
    requires k < |s|
  {
    s[..k] + s[k + 1..]
  }

  /** A concatenation cut where it was joined. */
  lemma Halves<T>(a: seq<T>, b: seq<T>)
    ensures (a + b)[..|a|] == a && (a + b)[|a|..] == b
  {
  }

  /** A piece of what follows a position. */
  lemma Piece<T>(s: seq<T>, at: nat, n: nat)
    requires at + n <= |s|
    ensures s[at..][..n] == s[at..at + n] && s[at..][n..] == s[at + n..]
  {
  }

  lemma Cut<T>(s: seq<T>, at: nat)
    requires at <= |s|
    ensures s == s[..at] + s[at..]
  {
  }

  lemma Assoc<T>(x: seq<T>, y: seq<T>, z: seq<T>)
    ensures x + (y + z) == (x + y) + z
  {
  }
}
