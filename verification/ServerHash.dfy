/** The text form of the session digest: ComputeServerHash of crypto/keyexchange.go after the SHA-1. */
module ServerHash {
  import opened Bytes

  function Pow256(n: nat): (p: nat)
    ensures p > 0
  {
    if n == 0 then 1 else 256 * Pow256(n - 1)
  }

  /** The bytes as a big-endian number. */
  function Value(s: seq<byte>): (v: nat)
    ensures v < Pow256(|s|)
  {
    if s == [] then 0
    else
      var last: int := s[|s| - 1];
      Value(s[..|s| - 1]) * 256 + last
  }

  /** The bytes as a big-endian two's-complement number. */
  function SignedValue(s: seq<byte>): int
    requires s != []
  {
    if s[0] >= 128 then Value(s) - Pow256(|s|) else Value(s)
  }

  // ---------------------------------------------------------------- hexadecimal numbers

  const DIGITS := "0123456789abcdef"

  /** The value of a digit, and of a character that is none, 16. */
  function DigitValue(c: char): (d: nat)
    ensures d <= 16
  {
    if '0' <= c <= '9' then (c - '0') as nat
    else if 'a' <= c <= 'f' then (c - 'a') as nat + 10
    else 16
  }

  lemma DigitReads(d: nat)
    requires d < 16
    ensures DigitValue(DIGITS[d]) == d
  {
  }

  function HexValue(t: string): nat {
    if t == [] then 0 else HexValue(t[..|t| - 1]) * 16 + DigitValue(t[|t| - 1])
  }

  /** A signed hexadecimal number, read. */
  function SignedHex(t: string): int {
    if t != [] && t[0] == '-' then 0 - HexValue(t[1..]) else HexValue(t)
  }

  /** The k lowest hexadecimal digits of m. */
  function FixedHex(m: nat, k: nat): (t: string)
    ensures |t| == k
    decreases k
  {
    if k == 0 then [] else FixedHex(m / 16, k - 1) + [DIGITS[m % 16]]
  }

  /** The hexadecimal digits of m without leading zeros. */
  function MinimalHex(m: nat): string {
    if m < 16 then [DIGITS[m]] else MinimalHex(m / 16) + [DIGITS[m % 16]]
  }

  function Pow16(n: nat): (p: nat)
    ensures p > 0
  {
    if n == 0 then 1 else 16 * Pow16(n - 1)
  }

  function Magnitude(v: int): nat {
    if v < 0 then -v else v
  }

  /** Digits with the sign in front. */
  function WithSign(v: int, digits: string): string {
    if v < 0 then "-" + digits else digits
  }

  /** The digest's text, by its numeric meaning: the empty text for zero, otherwise sign and all digits. */
  function Text(s: seq<byte>): string
    requires s != []
  {
    var v := SignedValue(s);
    if v == 0 then "" else WithSign(v, FixedHex(Magnitude(v), 2 * |s|))
  }

  // ---------------------------------------------------------------- the loops

  lemma {:induction false} ValueZero(s: seq<byte>)
    ensures Value(s) == 0 <==> forall i :: 0 <= i < |s| ==> s[i] == 0
  {
    if s != [] {
      var p := s[..|s| - 1];
      ValueZero(p);
      assert forall i :: 0 <= i < |p| ==> p[i] == s[i];
    }
  }

  /** The first byte alone bounds the value from below and above. */
  lemma {:induction false} ValueTop(s: seq<byte>)
    requires s != []
    ensures var top: int := s[0]; top * Pow256(|s| - 1) <= Value(s) < (top + 1) * Pow256(|s| - 1)
  {
    var top: int := s[0];
    if |s| > 1 {
      var p := s[..|s| - 1];
      ValueTop(p);
      var q := Pow256(|p| - 1);
      assert Pow256(|s| - 1) == 256 * q;
      hide Pow256;
      Regroup(top, q);
      Regroup(top + 1, q);
    } else {
      assert s[..0] == [];
    }
  }

  lemma ValueAppend(s: seq<byte>, b: byte)
    ensures var x: int := b; Value(s + [b]) == Value(s) * 256 + x
  {
    assert (s + [b])[..|s|] == s;
  }

  ghost predicate Inverted(s: seq<byte>, t: seq<byte>) {
    |s| == |t| && forall i :: 0 <= i < |s| ==> t[i] == 255 - s[i]
  }

  lemma {:induction false} InvertedValue(s: seq<byte>, t: seq<byte>)
    requires Inverted(s, t)
    ensures Value(t) == Pow256(|s|) - 1 - Value(s)
  {
    if s != [] {
      InvertedValue(s[..|s| - 1], t[..|s| - 1]);
    }
  }

  /** A number followed by n zero bytes. */
  lemma {:induction false} ValueShift(s: seq<byte>, z: seq<byte>)
    requires forall i :: 0 <= i < |z| ==> z[i] == 0
    ensures Value(s + z) == Value(s) * Pow256(|z|)
  {
    hide Value;
    if z == [] {
      assert s + z == s;
    } else {
      hide Pow256;
      var y := z[..|z| - 1];
      ValueShift(s, y);
      assert s + z == (s + y) + [0];
      ValueAppend(s + y, 0);
      MulPow(Value(s), |y|);
    }
  }

  lemma MulPow(x: nat, n: nat)
    ensures (x * Pow256(n)) * 256 == x * Pow256(n + 1) == (x * 256) * Pow256(n)
  {
    Regroup(x, Pow256(n));
  }

  lemma Regroup(x: int, p: int)
    ensures (x * p) * 256 == x * (256 * p) == (x * 256) * p
  {
  }

  /** Trailing 0xff bytes carry: adding one to s means adding one to what precedes them. */
  lemma CarryStep(s: seq<byte>, i: nat)
    requires i < |s| && s[i] == 255
    ensures Value(s[..i + 1]) + 1 == (Value(s[..i]) + 1) * 256
  {
    assert s[..i + 1] == s[..i] + [s[i]];
    ValueAppend(s[..i], s[i]);
  }

  method Invert(hash: array<byte>)
    modifies hash
    ensures Inverted(old(hash[..]), hash[..])
  {
    for i := 0 to hash.Length
      invariant forall k :: 0 <= k < i ==> hash[k] == 255 - old(hash[k])
      invariant forall k :: i <= k < hash.Length ==> hash[k] == old(hash[k])
    {
      hash[i] := 255 - hash[i];
    }
  }

  /** The carry loop: one is added to the number, which must not be the largest. */
  method Increment(hash: array<byte>)
    requires hash.Length > 0 && hash[0] < 255
    modifies hash
    ensures Value(hash[..]) == Value(old(hash[..])) + 1
  {
    hide Value, Pow256;
    var n := hash.Length;
    ghost var s := hash[..];
    var i := n - 1;
    assert s[..i + 1] == s;
    PowZero();
    while i >= 0
      invariant -1 <= i < n
      invariant forall k :: 0 <= k <= i ==> hash[k] == s[k]
      invariant forall k :: i < k < n ==> hash[k] == 0
      invariant (Value(s[..i + 1]) + 1) * Pow256(n - 1 - i) == Value(s) + 1
      invariant i == -1 ==> s[0] == 255
    {
      var b: int := hash[i];
      hash[i] := (b + 1) % 256;
      if hash[i] != 0 {
        IncrementEnds(s, hash[..], i);
        return;
      }
      CarryStep(s, i);
      MulPow(Value(s[..i]) + 1, n - 1 - i);
      i := i - 1;
    }
  }

  lemma PowZero()
    ensures Pow256(0) == 1
  {
  }

  lemma IncrementEnds(s: seq<byte>, t: seq<byte>, i: nat)
    requires i < |s| == |t|
    requires forall k :: 0 <= k < i ==> t[k] == s[k]
    requires var b: int := s[i]; t[i] == b + 1
    requires forall k :: i < k < |t| ==> t[k] == 0
    ensures Value(t) == (Value(s[..i + 1]) + 1) * Pow256(|s| - 1 - i)
  {
    hide Pow256, Value;
    var p, head, zeros := s[..i], t[..i + 1], t[i + 1..];
    ValueShift(head, zeros);
    assert head + zeros == t;
    assert head == p + [t[i]] && s[..i + 1] == p + [s[i]];
    ValueAppend(p, t[i]);
    ValueAppend(p, s[i]);
    assert Value(head) == Value(s[..i + 1]) + 1;
  }

  /** Two digits for one byte. */
  lemma FixedHexByte(v: nat, b: byte, k: nat)
    ensures var x: int := b; FixedHex(v * 256 + x, k + 2) == FixedHex(v, k) + [DIGITS[x / 16]] + [DIGITS[x % 16]]
  {
    hide FixedHex;
    var x: int := b;
    var m := v * 256 + x;
    Nibbles(v, x);
    FixedHexNext(m, k + 1);
    FixedHexNext(m / 16, k);
  }

  lemma FixedHexNext(m: nat, k: nat)
    ensures FixedHex(m, k + 1) == FixedHex(m / 16, k) + [DIGITS[m % 16]]
  {
  }

  lemma Nibbles(v: int, x: int)
    requires 0 <= x < 256
    ensures (v * 256 + x) % 16 == x % 16
    ensures ((v * 256 + x) / 16) % 16 == x / 16
    ensures (v * 256 + x) / 16 / 16 == v
  {
    assert v * 256 + x == 16 * (16 * v + x / 16) + x % 16;
    assert (v * 256 + x) / 16 == 16 * v + x / 16;
  }

  method Hex(hash: array<byte>) returns (hex: string)
    ensures hex == FixedHex(Value(hash[..]), 2 * hash.Length)
  {
    hide FixedHex, Value;
    hex := "";
    assert hex == FixedHex(Value(hash[..0]), 0) by { Start(hash[..0]); }
    for i := 0 to hash.Length
      invariant hex == FixedHex(Value(hash[..i]), 2 * i)
    {
      var b: int := hash[i];
      FixedHexByte(Value(hash[..i]), hash[i], 2 * i);
      ValueAppend(hash[..i], hash[i]);
      assert hash[..i + 1] == hash[..i] + [hash[i]];
      hex := hex + [DIGITS[b / 16]] + [DIGITS[b % 16]];
    }
    assert hash[..hash.Length] == hash[..];
  }

  lemma Start(s: seq<byte>)
    requires s == []
    ensures FixedHex(Value(s), 0) == ""
  {
  }

  method AllZero(hash: array<byte>) returns (zero: bool)
    requires hash.Length > 0
    ensures zero <==> Value(hash[..]) == 0
  {
    ValueZero(hash[..]);
    var i := 0;
    while i < hash.Length
      invariant i < hash.Length
      invariant forall k :: 0 <= k < i ==> hash[..][k] == 0
    {
      if hash[i] != 0 {
        break;
      }
      if i == hash.Length - 1 {
        return true;
      }
      i := i + 1;
    }
    assert hash[..][i] != 0;
    zero := false;
  }

  /** The sign bit: set means at least half the range, so zero never has it. */
  lemma TopBit(s: seq<byte>)
    requires s != []
    ensures s[0] >= 128 ==> Value(s) > 0
    ensures Value(s) < Pow256(|s|)
  {
    hide Value, Pow256;
    ValueTop(s);
    var top: int := s[0];
    if top >= 128 {
      Times(top, Pow256(|s| - 1));
    }
  }

  lemma Times(x: int, y: int)
    requires x > 0 && y > 0
    ensures x * y > 0
  {
  }

  lemma TextCases(s: seq<byte>)
    requires s != []
    ensures Value(s) == 0 ==> Text(s) == ""
    ensures Value(s) != 0 && s[0] < 128 ==> Text(s) == FixedHex(Value(s), 2 * |s|)
    ensures s[0] >= 128 ==> Value(s) < Pow256(|s|) && Text(s) == "-" + FixedHex(Pow256(|s|) - Value(s), 2 * |s|)
  {
    hide Value, Pow256, FixedHex;
    TopBit(s);
  }

  /** ComputeServerHash on the finished digest, which it overwrites. */
  method ComputeServerHash(hash: array<byte>) returns (text: string)
    requires hash.Length > 0
    modifies hash
    ensures text == Text(old(hash[..]))
  {
    hide Value, FixedHex, Pow256, Text, SignedValue;
    ghost var s := hash[..];
    TextCases(s);
    var zero := AllZero(hash);
    if zero {
      return "";
    }
    var negative := false;
    if hash[0] >= 128 {
      negative := true;
      Invert(hash);
      InvertedValue(s, hash[..]);
      Increment(hash);
    }
    text := Hex(hash);
    if negative {
      text := "-" + text;
    }
  }

  // ---------------------------------------------------------------- what the text says

  lemma {:induction false} FixedHexReads(m: nat, k: nat)
    requires m < Pow16(k)
    ensures HexValue(FixedHex(m, k)) == m
    decreases k
  {
    if k > 0 {
      FixedHexReads(m / 16, k - 1);
      var t := FixedHex(m, k);
      assert t[..k - 1] == FixedHex(m / 16, k - 1);
      DigitReads(m % 16);
    }
  }

  lemma {:induction false} Pow16Twice(n: nat)
    ensures Pow16(2 * n) == Pow256(n)
  {
    if n > 0 {
      Pow16Twice(n - 1);
      assert Pow16(2 * n) == 16 * (16 * Pow16(2 * n - 2));
    }
  }

  lemma MagnitudeBound(s: seq<byte>)
    requires s != []
    ensures Magnitude(SignedValue(s)) < Pow16(2 * |s|)
  {
    hide Value, Pow256;
    Pow16Twice(|s|);
    TopBit(s);
  }

  lemma {:induction false} NoSign(m: nat, k: nat)
    requires k > 0
    ensures FixedHex(m, k)[0] != '-'
    decreases k
  {
    if k == 1 {
      DigitReads(m % 16);
    } else {
      NoSign(m / 16, k - 1);
    }
  }

  lemma HexEmpty()
    ensures HexValue("") == 0
  {
  }

  /** Read as a signed hexadecimal number, the text of a non-zero digest is its two's-complement value. */
  lemma TextReadsAsValue(s: seq<byte>)
    requires s != []
    ensures SignedHex(Text(s)) == SignedValue(s)
    ensures Text(s) == "" <==> SignedValue(s) == 0
    ensures Text(s) != "" ==> (Text(s)[0] == '-' <==> SignedValue(s) < 0)
  {
    hide Value, FixedHex, SignedValue, Pow16, HexValue;
    MagnitudeBound(s);
    var v := SignedValue(s);
    var t := FixedHex(Magnitude(v), 2 * |s|);
    FixedHexReads(Magnitude(v), 2 * |s|);
    NoSign(Magnitude(v), 2 * |s|);
    assert ("-" + t)[1..] == t;
    if v == 0 {
      HexEmpty();
    }
  }

  lemma {:induction false} ValueInjective(s: seq<byte>, t: seq<byte>)
    requires |s| == |t| && Value(s) == Value(t)
    ensures s == t
  {
    if s != [] {
      var n := |s| - 1;
      ValueInjective(s[..n], t[..n]);
      assert s == s[..n] + [s[n]] && t == t[..n] + [t[n]];
    }
  }

  /** Different digests have different texts. */
  lemma TextInjective(s: seq<byte>, t: seq<byte>)
    requires |s| == |t| > 0 && Text(s) == Text(t)
    ensures s == t
  {
    hide Value, Text, Pow256;
    TextReadsAsValue(s);
    TextReadsAsValue(t);
    TopBit(s);
    TopBit(t);
    ValueInjective(s, t);
  }

  lemma {:induction false} FixedIsMinimal(m: nat, k: nat)
    requires k > 0 && m < Pow16(k)
    ensures FixedHex(m, k) == MinimalHex(m) <==> k == 1 || m >= Pow16(k - 1)
    decreases k
  {
    if k == 1 {
      assert FixedHex(m / 16, 0) == [];
    } else if m < 16 {
      assert Pow16(k - 1) == 16 * Pow16(k - 2);
    } else {
      FixedIsMinimal(m / 16, k - 1);
      assert Pow16(k - 1) == 16 * Pow16(k - 2);
      var x, y, d := FixedHex(m / 16, k - 1), MinimalHex(m / 16), [DIGITS[m % 16]];
      assert FixedHex(m, k) == x + d && MinimalHex(m) == y + d;
      assert (x + d)[..|x|] == x && (y + d)[..|y|] == y;
      if x + d == y + d { assert |x| == |y|; }
    }
  }

  /**
   * The digits are the shortest ones, as a number printer would give them, exactly when the magnitude
   * needs all of them: smaller digests keep their leading zeros.
   */
  lemma TextMinimalExactly(s: seq<byte>)
    requires s != [] && SignedValue(s) != 0
    ensures var v := SignedValue(s);
            Text(s) == WithSign(v, MinimalHex(Magnitude(v)))
            <==> Magnitude(v) >= Pow16(2 * |s| - 1)
  {
    hide Value, FixedHex, SignedValue, MinimalHex, Pow16;
    var v := SignedValue(s);
    MagnitudeBound(s);
    FixedIsMinimal(Magnitude(v), 2 * |s|);
    var f, m := FixedHex(Magnitude(v), 2 * |s|), MinimalHex(Magnitude(v));
    assert ("-" + f)[1..] == f && ("-" + m)[1..] == m;
  }
}
