/**
 * The stream cipher of crypto/cfb8.go over an arbitrary block function. It feeds back whole blocks,
 * so on block multiples it is cipher feedback with segment size equal to the block size (section 6.3
 * of NIST SP 800-38A).
 */
module Cfb8 {
  import opened Bytes

  // ---------------------------------------------------------------- exclusive or

  /** Bitwise exclusive or of the low `n` bits. */
  function XorBits(a: nat, b: nat, n: nat): (x: nat) {
    if n == 0 then 0 else (a % 2 + b % 2) % 2 + 2 * XorBits(a / 2, b / 2, n - 1)
  }

  function Power2(n: nat): (p: nat)
    ensures p > 0
  {
    if n == 0 then 1 else 2 * Power2(n - 1)
  }

  lemma {:induction false} XorBound(a: nat, b: nat, n: nat)
    ensures XorBits(a, b, n) < Power2(n)
  {
    if n > 0 { XorBound(a / 2, b / 2, n - 1); }
  }

  lemma {:induction false} XorBitsTwice(a: nat, b: nat, n: nat)
    requires a < Power2(n)
    ensures XorBits(XorBits(a, b, n), b, n) == a
  {
    if n > 0 {
      hide XorBits, Power2;
      HalfBelow(a, n);
      XorBitsTwice(a / 2, b / 2, n - 1);
      var x := XorBits(a, b, n);
      XorStep(a, b, n);
      XorStep(x, b, n);
      LowBits(a % 2, b % 2);
      BitsBack(a);
      BitsBack(XorBits(x, b, n));
    }
  }

  /** The lowest bit and the others. */
  lemma XorStep(a: nat, b: nat, n: nat)
    requires n > 0
    ensures XorBits(a, b, n) % 2 == (a % 2 + b % 2) % 2 && XorBits(a, b, n) / 2 == XorBits(a / 2, b / 2, n - 1)
  {
    var x, d := XorBits(a / 2, b / 2, n - 1), (a % 2 + b % 2) % 2;
    assert XorBits(a, b, n) == d + 2 * x;
    hide XorBits;
    BitAndRest(d, x);
  }

  lemma BitAndRest(d: int, x: int)
    requires 0 <= d < 2
    ensures (d + 2 * x) % 2 == d && (d + 2 * x) / 2 == x
  {
  }

  lemma BitsBack(a: int)
    ensures a == a % 2 + 2 * (a / 2)
  {
  }

  lemma LowBits(d: int, e: int)
    requires 0 <= d < 2 && 0 <= e < 2
    ensures ((d + e) % 2 + e) % 2 == d
  {
  }

  lemma HalfBelow(a: nat, n: nat)
    requires n > 0 && a < Power2(n)
    ensures a / 2 < Power2(n - 1)
  {
  }

  function Xor(a: byte, b: byte): (x: byte) {
    XorBound(a, b, 8);
    assert Power2(8) == 256;
    XorBits(a, b, 8)
  }

  lemma XorTwice(a: byte, b: byte)
    ensures Xor(Xor(a, b), b) == a
  {
    assert Power2(8) == 256;
    XorBitsTwice(a, b, 8);
  }

  lemma HalvedTwice(x: int, p: int)
    requires x >= 0 && p > 0
    ensures x / (2 * p) == x / 2 / p
  {
    var h := x / 2;
    var q, r := h / p, h % p;
    assert h == p * q + r;
    assert x == (2 * p) * q + (2 * r + x % 2);
    DivUnique(x, 2 * p, q, 2 * r + x % 2);
  }

  lemma {:induction false} XorBitsAt(a: nat, b: nat, n: nat, i: nat)
    requires i < n
    ensures XorBits(a, b, n) / Power2(i) % 2 == (a / Power2(i) + b / Power2(i)) % 2
  {
    hide XorBits, Power2;
    XorStep(a, b, n);
    var x := XorBits(a, b, n);
    if i == 0 {
      LowestBit(x, a, b);
    } else {
      XorBitsAt(a / 2, b / 2, n - 1, i - 1);
      HigherBit(x, i);
      HigherBit(a, i);
      HigherBit(b, i);
    }
  }

  lemma LowestBit(x: int, a: int, b: int)
    requires x % 2 == (a % 2 + b % 2) % 2
    ensures x / Power2(0) % 2 == (a / Power2(0) + b / Power2(0)) % 2
  {
    SumBit(a, b);
  }

  lemma HigherBit(x: nat, i: nat)
    requires i > 0
    ensures x / Power2(i) == x / 2 / Power2(i - 1)
  {
    var p := Power2(i - 1);
    assert Power2(i) == 2 * p;
    hide Power2;
    HalvedTwice(x, p);
  }

  lemma SumBit(a: int, b: int)
    ensures (a % 2 + b % 2) % 2 == (a + b) % 2
  {
  }

  /** Bit i of the exclusive or is set exactly when bit i of one operand is and of the other is not. */
  lemma XorBit(a: byte, b: byte, i: nat)
    requires i < 8
    ensures var x: int, y: int, z: int := a, b, Xor(a, b);
            z / Power2(i) % 2 == (x / Power2(i) + y / Power2(i)) % 2
    ensures Power2(0) == 1 && Power2(1) == 2 && Power2(2) == 4 && Power2(3) == 8
    ensures Power2(4) == 16 && Power2(5) == 32 && Power2(6) == 64 && Power2(7) == 128
  {
    XorBitsAt(a, b, 8, i);
  }

  function XorSeq(a: seq<byte>, k: seq<byte>): (x: seq<byte>)
    requires |a| <= |k|
    ensures |x| == |a|
  {
    seq(|a|, i requires 0 <= i < |a| => Xor(a[i], k[i]))
  }

  lemma XorSeqTwice(a: seq<byte>, k: seq<byte>)
    requires |a| <= |k|
    ensures XorSeq(XorSeq(a, k), k) == a
  {
    forall i | 0 <= i < |a|
      ensures Xor(Xor(a[i], k[i]), k[i]) == a[i]
    {
      XorTwice(a[i], k[i]);
    }
  }

  // ---------------------------------------------------------------- the mode, on values

  /** A block cipher seen from outside: some function on blocks of one size. */
  datatype BlockFunction = BlockFunction(size: nat, encrypt: seq<byte> -> seq<byte>)

  ghost predicate KeepsSize(b: BlockFunction) {
    b.size > 0 && forall s: seq<byte> :: |s| == b.size ==> |b.encrypt(s)| == b.size
  }

  type Block = b: BlockFunction | KeepsSize(b) ghost witness BlockFunction(1, s => s)

  /**
   * The output for `src` with feedback register `reg`. The register becomes each full block of the
   * input (`feedInput`) or of the output.
   */
  function Cfb(b: Block, reg: seq<byte>, src: seq<byte>, feedInput: bool): (out: seq<byte>)
    requires |reg| == b.size
    ensures |out| == |src|
    decreases |src|
  {
    var ks := b.encrypt(reg);
    if |src| < b.size then XorSeq(src, ks)
    else
      var o := XorSeq(src[..b.size], ks);
      o + Cfb(b, if feedInput then src[..b.size] else o, src[b.size..], feedInput)
  }

  /** The bytes the register is fed with: the ciphertext, when a decryptor reads its input. */
  function Fed(b: Block, reg: seq<byte>, src: seq<byte>, feedInput: bool): (f: seq<byte>)
    requires |reg| == b.size
    ensures |f| == |src|
  {
    if feedInput then src else Cfb(b, reg, src, feedInput)
  }

  /** The last full block of `f`, or `reg` when there is none. */
  function LastFull(size: nat, reg: seq<byte>, f: seq<byte>): (r: seq<byte>)
    requires size > 0 && |reg| == size
    ensures |r| == size
    decreases |f|
  {
    if |f| < size then reg else LastFull(size, f[..size], f[size..])
  }

  /** What follows the last full block of `f`. */
  function Tail(size: nat, f: seq<byte>): (t: seq<byte>)
    requires size > 0
    ensures |t| < size && |t| <= |f|
    decreases |f|
  {
    if |f| < size then f else Tail(size, f[size..])
  }

  /** bulkXOR leaves the last block in the IV and the tail on top of it. */
  function BulkIv(size: nat, iv: seq<byte>, f: seq<byte>): (v: seq<byte>)
    requires 0 < size <= |iv|
    ensures |v| == |iv|
  {
    var t := Tail(size, f);
    t + LastFull(size, iv[..size], f)[|t|..] + iv[size..]
  }

  /** The second half of the overflow buffer starts as whatever follows the first IV block, zero-filled. */
  function Padding(size: nat, iv: seq<byte>): (p: seq<byte>)
    requires 0 < size <= |iv|
    ensures |p| == size
  {
    (iv + seq(size, _ => 0))[size..2 * size]
  }

  /** byteByByteXOR shifts in full blocks only; the tail stays in the second half of the buffer. */
  function SlowIv(size: nat, iv: seq<byte>, f: seq<byte>): (v: seq<byte>)
    requires 0 < size <= |iv|
    ensures |v| == |iv|
  {
    var t, last := Tail(size, f), LastFull(size, iv[..size], f);
    var overflow := last + t + (if |f| < size then Padding(size, iv) else last)[|t|..];
    var m := Min(|iv|, 2 * size);
    overflow[..m] + iv[m..]
  }

  /** XORKeyStream switches path on two blocks. */
  function NextIv(size: nat, iv: seq<byte>, f: seq<byte>): (v: seq<byte>)
    requires 0 < size <= |iv|
    ensures |v| == |iv|
  {
    if |f| == 0 then iv
    else if |f| >= size * 2 then BulkIv(size, iv, f)
    else SlowIv(size, iv, f)
  }

  // ---------------------------------------------------------------- decryption undoes encryption

  /** One full block is taken off the input: what is written and what is left to do. */
  lemma CfbBlock(b: Block, reg: seq<byte>, src: seq<byte>, feedInput: bool)
    requires |reg| == b.size <= |src|
    ensures var o := XorSeq(src[..b.size], b.encrypt(reg));
            Cfb(b, reg, src, feedInput) == o + Cfb(b, if feedInput then src[..b.size] else o, src[b.size..], feedInput)
  {
  }

  lemma CfbTail(b: Block, reg: seq<byte>, src: seq<byte>, feedInput: bool)
    requires |reg| == b.size > |src|
    ensures Cfb(b, reg, src, feedInput) == XorSeq(src, b.encrypt(reg))
  {
  }

  /** What is fed back of that block, and after it. */
  lemma FedBlock(b: Block, reg: seq<byte>, src: seq<byte>, feedInput: bool)
    requires |reg| == b.size <= |src|
    ensures var o := XorSeq(src[..b.size], b.encrypt(reg));
            var next := if feedInput then src[..b.size] else o;
            var f := Fed(b, reg, src, feedInput);
            f == next + f[b.size..] && f[b.size..] == Fed(b, next, src[b.size..], feedInput)
  {
    hide Cfb, XorSeq;
    var o := XorSeq(src[..b.size], b.encrypt(reg));
    if feedInput {
      Cut(src, b.size);
    } else {
      CfbBlock(b, reg, src, feedInput);
      Halves(o, Cfb(b, o, src[b.size..], feedInput));
    }
  }

  lemma {:induction false} CfbInverse(b: Block, reg: seq<byte>, msg: seq<byte>)
    requires |reg| == b.size
    ensures Cfb(b, reg, Cfb(b, reg, msg, false), true) == msg
    decreases |msg|
  {
    hide Cfb, XorSeq;
    var ks, c := b.encrypt(reg), Cfb(b, reg, msg, false);
    if |msg| < b.size {
      CfbTail(b, reg, msg, false);
      CfbTail(b, reg, c, true);
      XorSeqTwice(msg, ks);
    } else {
      var o := XorSeq(msg[..b.size], ks);
      CfbBlock(b, reg, msg, false);
      Halves(o, Cfb(b, o, msg[b.size..], false));
      CfbBlock(b, reg, c, true);
      XorSeqTwice(msg[..b.size], ks);
      CfbInverse(b, o, msg[b.size..]);
      Cut(msg, b.size);
    }
  }

  /** A message encrypted under `iv`, and the IV for the next message. */
  function Encrypt(b: Block, iv: seq<byte>, msg: seq<byte>): (r: (seq<byte>, seq<byte>))
    requires |iv| >= b.size
    ensures |r.0| == |msg| && |r.1| == |iv|
  {
    (Cfb(b, iv[..b.size], msg, false), NextIv(b.size, iv, Fed(b, iv[..b.size], msg, false)))
  }

  function Decrypt(b: Block, iv: seq<byte>, msg: seq<byte>): (r: (seq<byte>, seq<byte>))
    requires |iv| >= b.size
    ensures |r.0| == |msg| && |r.1| == |iv|
  {
    (Cfb(b, iv[..b.size], msg, true), NextIv(b.size, iv, Fed(b, iv[..b.size], msg, true)))
  }

  /** Decrypting a message recovers it and keeps the two IVs equal, on either path. */
  lemma DecryptEncrypt(b: Block, iv: seq<byte>, msg: seq<byte>)
    requires |iv| >= b.size
    ensures Decrypt(b, iv, Encrypt(b, iv, msg).0) == (msg, Encrypt(b, iv, msg).1)
  {
    CfbInverse(b, iv[..b.size], msg);
  }

  function EncryptAll(b: Block, iv: seq<byte>, msgs: seq<seq<byte>>): (r: (seq<seq<byte>>, seq<byte>))
    requires |iv| >= b.size
    ensures |r.1| == |iv|
    decreases |msgs|
  {
    if msgs == [] then ([], iv)
    else
      var (c, iv') := Encrypt(b, iv, msgs[0]);
      var (cs, last) := EncryptAll(b, iv', msgs[1..]);
      ([c] + cs, last)
  }

  function DecryptAll(b: Block, iv: seq<byte>, msgs: seq<seq<byte>>): (r: (seq<seq<byte>>, seq<byte>))
    requires |iv| >= b.size
    ensures |r.1| == |iv|
    decreases |msgs|
  {
    if msgs == [] then ([], iv)
    else
      var (c, iv') := Decrypt(b, iv, msgs[0]);
      var (cs, last) := DecryptAll(b, iv', msgs[1..]);
      ([c] + cs, last)
  }

  /** Message by message with the same boundaries, every message comes back. */
  lemma {:induction false} DecryptAllEncryptAll(b: Block, iv: seq<byte>, msgs: seq<seq<byte>>)
    requires |iv| >= b.size
    ensures DecryptAll(b, iv, EncryptAll(b, iv, msgs).0) == (msgs, EncryptAll(b, iv, msgs).1)
    decreases |msgs|
  {
    if msgs != [] {
      var (c, iv') := Encrypt(b, iv, msgs[0]);
      var cs := EncryptAll(b, iv', msgs[1..]).0;
      DecryptEncrypt(b, iv, msgs[0]);
      DecryptAllEncryptAll(b, iv', msgs[1..]);
      assert ([c] + cs)[1..] == cs;
      assert msgs == [msgs[0]] + msgs[1..];
    }
  }

  // ---------------------------------------------------------------- the two paths

  lemma {:induction false} TailLength(size: nat, f: seq<byte>)
    requires size > 0
    ensures |Tail(size, f)| == |f| % size
    decreases |f|
  {
    if |f| < size {
      DivUnique(|f|, size, 0, |f|);
    } else {
      TailLength(size, f[size..]);
      var q := (|f| - size) / size;
      assert |f| == size * (q + 1) + (|f| - size) % size;
      DivUnique(|f|, size, q + 1, (|f| - size) % size);
    }
  }

  /** The register after the bytes: the first block of the IV, which is all that later output depends on. */
  lemma Registers(size: nat, iv: seq<byte>, f: seq<byte>)
    requires 0 < size <= |iv|
    ensures SlowIv(size, iv, f)[..size] == LastFull(size, iv[..size], f)
    ensures BulkIv(size, iv, f)[..size] == Tail(size, f) + LastFull(size, iv[..size], f)[|Tail(size, f)|..]
  {
  }

  /** Whatever the IV's length, both paths leave the same register on every block multiple. */
  lemma PathsAgreeOnBlocks(size: nat, iv: seq<byte>, f: seq<byte>)
    requires 0 < size <= |iv| && |f| % size == 0
    ensures BulkIv(size, iv, f)[..size] == SlowIv(size, iv, f)[..size] == LastFull(size, iv[..size], f)
  {
    TailLength(size, f);
    Registers(size, iv, f);
  }

  /** Of every other length some input tells the registers apart: only the bulk path feeds back the tail. */
  lemma PathsDifferOtherwise(size: nat, m: nat, n: nat) returns (iv: seq<byte>, f: seq<byte>)
    requires 0 < size <= m && n % size != 0
    ensures |iv| == m && |f| == n
    ensures BulkIv(size, iv, f)[..size] != SlowIv(size, iv, f)[..size]
  {
    hide BulkIv, SlowIv, LastFull, Tail;
    RemainderFits(n, size);
    var k := n - n % size;
    iv := seq(m, _ => 0);
    f := seq(n, i => if i < k then 0 else 1);
    TailLength(size, f);
    TailDiffers(size, iv, f, k);
  }

  lemma RemainderFits(n: nat, size: nat)
    requires size > 0
    ensures 0 <= n % size <= n
  {
    if n < size {
      DivUnique(n, size, 0, n);
    }
  }

  /** A register and full blocks of zeros, and then a tail that is not. */
  lemma TailDiffers(size: nat, iv: seq<byte>, f: seq<byte>, k: nat)
    requires 0 < size <= |iv| && k < |f| && |Tail(size, f)| == |f| - k
    requires forall i :: 0 <= i < |iv| ==> iv[i] == 0
    requires forall i :: 0 <= i < |f| ==> f[i] == if i < k then 0 else 1
    ensures BulkIv(size, iv, f)[..size] != SlowIv(size, iv, f)[..size]
  {
    hide BulkIv, SlowIv, LastFull, Tail;
    TailIsSuffix(size, f);
    LastFullIsZero(size, iv[..size], f, k);
    Registers(size, iv, f);
    assert Tail(size, f)[0] == f[k];
    assert BulkIv(size, iv, f)[..size][0] == 1;
    assert SlowIv(size, iv, f)[..size][0] == 0;
  }

  ghost predicate SameRegister(size: nat, iv: seq<byte>, f: seq<byte>)
    requires 0 < size <= |iv|
  {
    BulkIv(size, iv, f)[..size] == SlowIv(size, iv, f)[..size]
  }

  /** The lengths at which the paths leave the same register, on all data, are exactly the block multiples. */
  lemma PathsAgreeExactly(size: nat, m: nat, n: nat)
    requires 0 < size <= m
    ensures (forall iv: seq<byte>, f: seq<byte> | |iv| == m && |f| == n :: SameRegister(size, iv, f)) <==> n % size == 0
  {
    hide BulkIv, SlowIv, LastFull;
    if n % size == 0 {
      forall iv: seq<byte>, f: seq<byte> | |iv| == m && |f| == n
        ensures SameRegister(size, iv, f)
      {
        PathsAgreeOnBlocks(size, iv, f);
      }
    } else {
      var iv, f := PathsDifferOtherwise(size, m, n);
      assert !SameRegister(size, iv, f);
    }
  }

  /**
   * Beyond the register the paths differ even on block multiples: the byte path writes its second half
   * there, the bulk path nothing. Some data shows it for every IV longer than a block.
   */
  lemma LongIvsDiffer(size: nat, m: nat, n: nat) returns (iv: seq<byte>, f: seq<byte>)
    requires 0 < size < m && 0 < n && n % size == 0
    ensures |iv| == m && |f| == n
    ensures BulkIv(size, iv, f) != SlowIv(size, iv, f)
  {
    iv, f := seq(m, i => if i < size then 0 else 1), seq(n, _ => 0);
    TailLength(size, f);
    LastFullIsZero(size, iv[..size], f, n);
    if n < size { DivUnique(n, size, 0, n); }
    assert BulkIv(size, iv, f)[size] == iv[size];
    assert SlowIv(size, iv, f)[size] == LastFull(size, iv[..size], f)[0];
  }

  lemma {:induction false} TailIsSuffix(size: nat, f: seq<byte>)
    requires size > 0
    ensures Tail(size, f) == f[|f| - |Tail(size, f)|..]
    decreases |f|
  {
    if |f| >= size { TailIsSuffix(size, f[size..]); }
  }

  lemma {:induction false} LastFullIsZero(size: nat, reg: seq<byte>, f: seq<byte>, k: nat)
    requires size > 0 && |reg| == size && k <= |f|
    requires k == |f| - |Tail(size, f)|
    requires forall i :: 0 <= i < size ==> reg[i] == 0
    requires forall i :: 0 <= i < k ==> f[i] == 0
    ensures forall i :: 0 <= i < size ==> LastFull(size, reg, f)[i] == 0
    decreases |f|
  {
    if |f| >= size { LastFullIsZero(size, f[..size], f[size..], k - size); }
  }

  /** Splitting the input at a block boundary does not change the output. */
  lemma {:induction false} CfbSplit(b: Block, reg: seq<byte>, x: seq<byte>, y: seq<byte>, feedInput: bool)
    requires |reg| == b.size && Tail(b.size, x) == []
    ensures Cfb(b, reg, x + y, feedInput) ==
            Cfb(b, reg, x, feedInput) +
            Cfb(b, LastFull(b.size, reg, Fed(b, reg, x, feedInput)), y, feedInput)
    decreases |x|
  {
    hide Cfb, Fed, XorSeq;
    if |x| < b.size {
      NothingYet(b, reg, y, feedInput);
    } else {
      var h, t := x[..b.size], x[b.size..];
      var o := XorSeq(h, b.encrypt(reg));
      var next := if feedInput then h else o;
      Cut(x, b.size);
      Assoc(h, t, y);
      Halves(h, t + y);
      CfbBlock(b, reg, x + y, feedInput);
      CfbBlock(b, reg, x, feedInput);
      FedBlock(b, reg, x, feedInput);
      var f := Fed(b, reg, x, feedInput);
      Halves(next, f[b.size..]);
      CfbSplit(b, next, t, y, feedInput);
      var last := LastFull(b.size, next, Fed(b, next, t, feedInput));
      Assoc(o, Cfb(b, next, t, feedInput), Cfb(b, last, y, feedInput));
    }
  }

  lemma NothingYet(b: Block, reg: seq<byte>, y: seq<byte>, feedInput: bool)
    requires |reg| == b.size
    ensures Cfb(b, reg, [], feedInput) == [] && [] + y == y
    ensures LastFull(b.size, reg, Fed(b, reg, [], feedInput)) == reg
    ensures [] + Cfb(b, reg, y, feedInput) == Cfb(b, reg, y, feedInput)
  {
    hide Cfb;
  }

  lemma {:induction false} LastFullSplit(size: nat, reg: seq<byte>, f: seq<byte>, g: seq<byte>)
    requires size > 0 && |reg| == size && Tail(size, f) == []
    ensures LastFull(size, reg, f + g) == LastFull(size, LastFull(size, reg, f), g)
    decreases |f|
  {
    if |f| < size {
      assert f + g == g;
    } else {
      assert (f + g)[..size] == f[..size] && (f + g)[size..] == f[size..] + g;
      LastFullSplit(size, f[..size], f[size..], g);
    }
  }

  /** The IV beyond the register influences neither the output nor the next register. */
  lemma RegisterSuffices(b: Block, iv: seq<byte>, iv2: seq<byte>, msg: seq<byte>, feedInput: bool)
    requires |iv| >= b.size && |iv2| >= b.size && iv[..b.size] == iv2[..b.size]
    ensures Cfb(b, iv[..b.size], msg, feedInput) == Cfb(b, iv2[..b.size], msg, feedInput)
    ensures var f := Fed(b, iv[..b.size], msg, feedInput);
            NextIv(b.size, iv, f)[..b.size] == NextIv(b.size, iv2, f)[..b.size]
  {
    hide BulkIv, SlowIv, LastFull, Tail;
    var f := Fed(b, iv[..b.size], msg, feedInput);
    Registers(b.size, iv, f);
    Registers(b.size, iv2, f);
  }

  /** The register after a message of whole blocks, on either path. */
  lemma NextRegister(b: Block, iv: seq<byte>, f: seq<byte>)
    requires |iv| >= b.size && |f| % b.size == 0
    ensures NextIv(b.size, iv, f)[..b.size] == LastFull(b.size, iv[..b.size], f)
  {
    PathsAgreeOnBlocks(b.size, iv, f);
  }

  /**
   * Two calls on the pieces do what one call on the whole does, across the path switch and whatever the
   * IV's length: the same ciphertext and, if the second piece is whole blocks too, the same register.
   */
  lemma EncryptSplit(b: Block, iv: seq<byte>, x: seq<byte>, y: seq<byte>)
    requires |iv| >= b.size && |x| % b.size == 0
    ensures var (c, iv') := Encrypt(b, iv, x);
            && Encrypt(b, iv, x + y).0 == c + Encrypt(b, iv', y).0
            && (|y| % b.size == 0 ==> Encrypt(b, iv, x + y).1[..b.size] == Encrypt(b, iv', y).1[..b.size])
  {
    hide NextIv, LastFull, Cfb;
    var size, reg := b.size, iv[..b.size];
    var c := Cfb(b, reg, x, false);
    TailLength(size, x);
    NextRegister(b, iv, c);
    var iv' := Encrypt(b, iv, x).1;
    CfbSplit(b, reg, x, y, false);
    if |y| % size == 0 {
      var d := Cfb(b, iv'[..size], y, false);
      TailLength(size, c);
      LastFullSplit(size, reg, c, d);
      NextRegister(b, iv', d);
      MultipleSum(|x|, |y|, size);
      NextRegister(b, iv, c + d);
    }
  }

  lemma MultipleSum(m: nat, n: nat, d: nat)
    requires d > 0 && m % d == 0 && n % d == 0
    ensures (m + n) % d == 0
  {
    assert m + n == d * (m / d + n / d) + 0;
    DivUnique(m + n, d, m / d + n / d, 0);
  }

  /**
   * The recurrence of section 6.3 of NIST SP 800-38A with segments of one block: each output block is
   * the input block combined with the encryption of the previous fed-back block.
   */
  lemma BlockRecurrence(b: Block, reg: seq<byte>, x: seq<byte>, y: seq<byte>, feedInput: bool)
    requires |reg| == b.size <= |y| && |x| % b.size == 0
    ensures x == [] || |x| >= b.size
    ensures var prev := if x == [] then reg else Fed(b, reg, x + y, feedInput)[|x| - b.size..|x|];
            Cfb(b, reg, x + y, feedInput)[|x|..|x| + b.size] == XorSeq(y[..b.size], b.encrypt(prev))
  {
    TailLength(b.size, x);
    AlignedRecurrence(b, reg, x, y, feedInput);
  }

  lemma AlignedRecurrence(b: Block, reg: seq<byte>, x: seq<byte>, y: seq<byte>, feedInput: bool)
    requires |reg| == b.size <= |y| && Tail(b.size, x) == []
    ensures x == [] || |x| >= b.size
    ensures var prev := if x == [] then reg else Fed(b, reg, x + y, feedInput)[|x| - b.size..|x|];
            Cfb(b, reg, x + y, feedInput)[|x|..|x| + b.size] == XorSeq(y[..b.size], b.encrypt(prev))
  {
    var f, g := Fed(b, reg, x, feedInput), Fed(b, reg, x + y, feedInput);
    BlockAfter(b, reg, x, y, feedInput);
    TailLength(b.size, f);
    TailLength(b.size, x);
    LastFullSlice(b.size, reg, f);
    assert x != [] ==> g[|x| - b.size..|x|] == g[..|x|][|x| - b.size..];
  }

  lemma BlockAfter(b: Block, reg: seq<byte>, x: seq<byte>, y: seq<byte>, feedInput: bool)
    requires |reg| == b.size <= |y| && Tail(b.size, x) == []
    ensures Cfb(b, reg, x + y, feedInput)[..|x|] == Cfb(b, reg, x, feedInput)
    ensures Fed(b, reg, x + y, feedInput)[..|x|] == Fed(b, reg, x, feedInput)
    ensures Cfb(b, reg, x + y, feedInput)[|x|..|x| + b.size] ==
            XorSeq(y[..b.size], b.encrypt(LastFull(b.size, reg, Fed(b, reg, x, feedInput))))
  {
    CfbSplit(b, reg, x, y, feedInput);
    FirstBlock(b, LastFull(b.size, reg, Fed(b, reg, x, feedInput)), y, feedInput);
    assert (x + y)[..|x|] == x;
  }

  lemma FirstBlock(b: Block, reg: seq<byte>, src: seq<byte>, feedInput: bool)
    requires |reg| == b.size <= |src|
    ensures Cfb(b, reg, src, feedInput)[..b.size] == XorSeq(src[..b.size], b.encrypt(reg))
  {
  }

  /**
   * The recurrence byte by byte, partial blocks included: every output byte is the input byte combined with
   * its byte of the encrypted register, which is the block fed back before it.
   */
  lemma {:induction false} ByteRecurrence(b: Block, reg: seq<byte>, src: seq<byte>, feedInput: bool, i: nat)
    requires |reg| == b.size && i < |src|
    ensures i / b.size * b.size <= i && (i >= b.size ==> b.size <= i / b.size * b.size)
    ensures var start := i / b.size * b.size;
            var prev := if i < b.size then reg else Fed(b, reg, src, feedInput)[start - b.size..start];
            Cfb(b, reg, src, feedInput)[i] == Xor(src[i], b.encrypt(prev)[i % b.size])
    decreases |src|
  {
    hide Cfb, Fed, Xor;
    var size := b.size;
    if i < size {
      SmallQuotient(i, size);
      if |src| < size {
        CfbTail(b, reg, src, feedInput);
      } else {
        CfbBlock(b, reg, src, feedInput);
        assert src[..size][i] == src[i];
      }
    } else {
      BlockDown(i, size);
      CfbBlock(b, reg, src, feedInput);
      FedBlock(b, reg, src, feedInput);
      var o := XorSeq(src[..size], b.encrypt(reg));
      hide XorSeq;
      var next := if feedInput then src[..size] else o;
      var f, g, j := Fed(b, reg, src, feedInput), Fed(b, next, src[size..], feedInput), i - size;
      ByteRecurrence(b, next, src[size..], feedInput, j);
      var start := j / size * size;
      if j < size {
        SmallQuotient(j, size);
        Halves(next, g);
      } else {
        assert f[size..][start - size..start] == f[start..start + size];
      }
    }
  }

  lemma SmallQuotient(i: nat, size: nat)
    requires i < size
    ensures i / size == 0 && i % size == i
  {
    DivUnique(i, size, 0, i);
  }

  /** One block further on. */
  lemma BlockDown(i: nat, size: nat)
    requires 0 < size <= i
    ensures i % size == (i - size) % size
    ensures i / size * size == (i - size) / size * size + size <= i
  {
    var j := i - size;
    var q, r := j / size, j % size;
    assert j == size * q + r && i == size * (q + 1) + r;
    DivUnique(i, size, q + 1, r);
    assert (q + 1) * size == q * size + size;
  }

  /** The last full block of f, by position. */
  lemma {:induction false} LastFullAt(size: nat, reg: seq<byte>, f: seq<byte>)
    requires size > 0 && |reg| == size
    ensures |f| < size ==> LastFull(size, reg, f) == reg
    ensures |f| >= size ==>
              var k := |f| - |Tail(size, f)|;
              size <= k && LastFull(size, reg, f) == f[k - size..k]
    decreases |f|
  {
    if |f| >= size {
      var t := f[size..];
      LastFullAt(size, f[..size], t);
      var k := |t| - |Tail(size, t)|;
      if |t| >= size {
        assert t[k - size..k] == f[k..k + size];
      } else {
        assert f[0..size] == f[..size];
      }
    }
  }

  /**
   * The register after `f` was fed back, by the length: nothing below one block; from one block on the last
   * full block; and from two blocks on, where the bulk path takes over, the partial block on top of it.
   */
  lemma NextRegisterExactly(size: nat, iv: seq<byte>, f: seq<byte>)
    requires 0 < size <= |iv|
    ensures |f| < size ==> NextIv(size, iv, f)[..size] == iv[..size]
    ensures size <= |f| < 2 * size ==> NextIv(size, iv, f)[..size] == f[..size]
    ensures |f| >= 2 * size ==>
              var k := |f| - |f| % size;
              size <= k <= |f| && NextIv(size, iv, f)[..size] == f[k..] + f[k - size..k][|f| % size..]
  {
    hide BulkIv, SlowIv, LastFull, Tail;
    Registers(size, iv, f);
    TailLength(size, f);
    TailIsSuffix(size, f);
    LastFullAt(size, iv[..size], f);
    if size <= |f| < 2 * size {
      DivUnique(|f|, size, 1, |f| - size);
    }
  }

  lemma {:induction false} LastFullSlice(size: nat, reg: seq<byte>, f: seq<byte>)
    requires size > 0 && |reg| == size && Tail(size, f) == []
    ensures if f == [] then LastFull(size, reg, f) == reg
            else |f| >= size && LastFull(size, reg, f) == f[|f| - size..]
    decreases |f|
  {
    if |f| >= size { LastFullSlice(size, f[..size], f[size..]); }
  }

  // ---------------------------------------------------------------- decrypting in place

  /**
   * With one buffer for both sides the input block is gone before it is fed back: what is fed back is the
   * output, which makes a decryptor encrypt.
   */
  function DecryptInPlace(b: Block, iv: seq<byte>, c: seq<byte>): (seq<byte>, seq<byte>)
    requires |iv| >= b.size
  {
    Encrypt(b, iv, c)
  }

  /** In-place decryption does its work: the message is back and the register is the sender's. */
  ghost predicate InPlaceOk(b: Block, iv: seq<byte>, msg: seq<byte>)
    requires |iv| >= b.size
  {
    var (c, iv') := Encrypt(b, iv, msg);
    DecryptInPlace(b, iv, c).0 == msg && DecryptInPlace(b, iv, c).1[..b.size] == iv'[..b.size]
  }

  /** In-place decryption recovers every message of up to one block... */
  lemma InPlaceWithinBlock(b: Block, reg: seq<byte>, msg: seq<byte>)
    requires |reg| == b.size && |msg| <= b.size
    ensures Cfb(b, reg, Cfb(b, reg, msg, false), false) == msg
  {
    var ks := b.encrypt(reg);
    XorSeqTwice(msg, ks);
    if |msg| == b.size {
      assert msg[..b.size] == msg && msg[b.size..] == [];
      var o := XorSeq(msg, ks);
      assert Cfb(b, reg, msg, false) == o + [] == o;
      assert o[..b.size] == o && o[b.size..] == [];
    }
  }

  /** ... and below one block it keeps the register too, since nothing is fed back. */
  lemma InPlaceBelowBlock(b: Block, iv: seq<byte>, msg: seq<byte>)
    requires |iv| >= b.size && |msg| < b.size
    ensures InPlaceOk(b, iv, msg)
  {
    hide Cfb, BulkIv;
    InPlaceWithinBlock(b, iv[..b.size], msg);
    var c := Encrypt(b, iv, msg).0;
    Registers(b.size, iv, c);
    Registers(b.size, iv, msg);
  }

  /** Of one block exactly, a message after which the register is the plaintext instead of the ciphertext. */
  lemma InPlaceAtBlock(size: nat) returns (b: Block, iv: seq<byte>, msg: seq<byte>)
    requires 0 < size
    ensures b.size == size && |iv| == size && |msg| == size
    ensures !InPlaceOk(b, iv, msg)
  {
    b := BlockFunction(size, s => s);
    iv, msg := seq(size, _ => 1), seq(size, _ => 0);
    assert Xor(0, 1) == 1 by { XorFacts(); }
    InPlaceWithinBlock(b, iv[..size], msg);
    var c := Encrypt(b, iv, msg).0;
    assert c == XorSeq(msg[..size], iv) + [];
    assert c[0] == 1;
    DivUnique(size, size, 1, 0);
    NextRegister(b, iv, c);
    NextRegister(b, iv, msg);
    OneBlock(size, iv[..size], c);
    OneBlock(size, iv[..size], msg);
  }

  lemma OneBlock(size: nat, reg: seq<byte>, f: seq<byte>)
    requires 0 < size && |reg| == size && |f| == size
    ensures LastFull(size, reg, f) == f
  {
    assert f[..size] == f;
  }

  /** Of every greater length there is a message it does not recover. */
  lemma InPlaceBeyondBlock(size: nat, n: nat) returns (b: Block, iv: seq<byte>, msg: seq<byte>)
    requires 0 < size < n
    ensures b.size == size && |iv| == size && |msg| == n
    ensures DecryptInPlace(b, iv, Encrypt(b, iv, msg).0).0 != msg
  {
    hide NextIv;
    b := BlockFunction(size, s => s);
    var reg: seq<byte> := seq(size, _ => 1);
    iv, msg := reg, seq(n, _ => 0);
    assert iv[..size] == reg;
    assert Xor(0, 1) == 1 && Xor(1, 1) == 0 && Xor(1, 0) == 1 by { XorFacts(); }
    var c := Cfb(b, reg, msg, false);
    var o := XorSeq(msg[..size], reg);
    assert o == reg;
    assert c == o + Cfb(b, o, msg[size..], false);
    assert c[..size] == o && c[size..] == Cfb(b, reg, msg[size..], false);
    FirstByte(b, reg, msg[size..]);
    assert c[size] == c[size..][0] == Xor(0, 1);
    var p := XorSeq(o, reg);
    var out := Cfb(b, reg, c, false);
    assert out == p + Cfb(b, p, c[size..], false);
    FirstByte(b, p, c[size..]);
    assert out[size] == Xor(c[size], p[0]) == Xor(1, 0);
  }

  /** The lengths at which in-place decryption is right on all data are exactly those below one block. */
  lemma InPlaceExactly(size: nat, n: nat)
    requires 0 < size
    ensures (forall b: Block, iv: seq<byte>, msg: seq<byte> | b.size == size && |iv| >= size && |msg| == n ::
               InPlaceOk(b, iv, msg))
            <==> n < size
  {
    hide InPlaceOk;
    if n < size {
      forall b: Block, iv: seq<byte>, msg: seq<byte> | b.size == size && |iv| >= size && |msg| == n
        ensures InPlaceOk(b, iv, msg)
      {
        InPlaceBelowBlock(b, iv, msg);
      }
    } else if n == size {
      var b, iv, msg := InPlaceAtBlock(size);
    } else {
      var b, iv, msg := InPlaceBeyondBlock(size, n);
      NotOk(b, iv, msg);
    }
  }

  lemma NotOk(b: Block, iv: seq<byte>, msg: seq<byte>)
    requires |iv| >= b.size && DecryptInPlace(b, iv, Encrypt(b, iv, msg).0).0 != msg
    ensures !InPlaceOk(b, iv, msg)
  {
  }

  lemma FirstByte(b: Block, reg: seq<byte>, src: seq<byte>)
    requires |reg| == b.size && |src| > 0
    ensures Cfb(b, reg, src, false)[0] == Xor(src[0], b.encrypt(reg)[0])
  {
  }

  lemma XorFacts()
    ensures Xor(0, 1) == 1 && Xor(1, 1) == 0 && Xor(1, 0) == 1
  {
    assert XorBits(0, 0, 7) == 0;
  }
}
