/** The CFB8 object of crypto/cfb8.go: buffers updated in place, a bulk path and a byte-by-byte path. */
module Cfb8Stream {
  import opened Bytes
  import opened Cfb8

  /** One full block is taken off the input: what is written, fed back, and left to do. */
  lemma TakeBlock(b: Block, reg: seq<byte>, src: seq<byte>, feedInput: bool)
    requires |reg| == b.size <= |src|
    ensures var o := XorSeq(src[..b.size], b.encrypt(reg));
            var next := if feedInput then src[..b.size] else o;
            var out, f := Cfb(b, reg, src, feedInput), Fed(b, reg, src, feedInput);
            && out[..b.size] == o && out[b.size..] == Cfb(b, next, src[b.size..], feedInput)
            && f[..b.size] == next && f[b.size..] == Fed(b, next, src[b.size..], feedInput)
            && LastFull(b.size, reg, f) == LastFull(b.size, next, f[b.size..])
            && Tail(b.size, f) == Tail(b.size, f[b.size..])
  {
    hide Cfb, Fed, XorSeq;
    var o := XorSeq(src[..b.size], b.encrypt(reg));
    var next := if feedInput then src[..b.size] else o;
    CfbBlock(b, reg, src, feedInput);
    Halves(o, Cfb(b, next, src[b.size..], feedInput));
    FedBlock(b, reg, src, feedInput);
    Halves(next, Fed(b, reg, src, feedInput)[b.size..]);
  }

  /** `at` bytes are done: `out` and `f` are the output and the fed-back bytes of the whole input. */
  ghost predicate Progress(b: Block, iv: seq<byte>, src: seq<byte>, feedInput: bool, at: nat, reg: seq<byte>) {
    && |iv| >= b.size && |reg| == b.size && at <= |src|
    && var out, f := Cfb(b, iv[..b.size], src, feedInput), Fed(b, iv[..b.size], src, feedInput);
    && Cfb(b, reg, src[at..], feedInput) == out[at..]
    && Fed(b, reg, src[at..], feedInput) == f[at..]
    && LastFull(b.size, reg, f[at..]) == LastFull(b.size, iv[..b.size], f)
    && Tail(b.size, f[at..]) == Tail(b.size, f)
  }

  lemma ProgressStart(b: Block, iv: seq<byte>, src: seq<byte>, feedInput: bool)
    requires |iv| >= b.size
    ensures Progress(b, iv, src, feedInput, 0, iv[..b.size])
  {
    assert src[0..] == src;
    assert forall s: seq<byte> :: s[0..] == s;
  }

  lemma ProgressStep(b: Block, iv: seq<byte>, src: seq<byte>, feedInput: bool, at: nat, reg: seq<byte>)
    requires Progress(b, iv, src, feedInput, at, reg) && at + b.size <= |src|
    ensures var out, f := Cfb(b, iv[..b.size], src, feedInput), Fed(b, iv[..b.size], src, feedInput);
            && out[at..at + b.size] == XorSeq(src[at..at + b.size], b.encrypt(reg))
            && f[at..at + b.size] == (if feedInput then src else out)[at..at + b.size]
            && Progress(b, iv, src, feedInput, at + b.size, f[at..at + b.size])
  {
    hide Cfb, Fed, XorSeq, LastFull, Tail;
    var out, f := Cfb(b, iv[..b.size], src, feedInput), Fed(b, iv[..b.size], src, feedInput);
    TakeBlock(b, reg, src[at..], feedInput);
    Piece(src, at, b.size);
    Piece(out, at, b.size);
    Piece(f, at, b.size);
  }

  /** Less than a block is left. */
  lemma ProgressEnd(b: Block, iv: seq<byte>, src: seq<byte>, feedInput: bool, at: nat, reg: seq<byte>)
    requires Progress(b, iv, src, feedInput, at, reg) && |src| - at < b.size
    ensures var out, f := Cfb(b, iv[..b.size], src, feedInput), Fed(b, iv[..b.size], src, feedInput);
            && out[at..] == XorSeq(src[at..], b.encrypt(reg))
            && f[at..] == (if feedInput then src else out)[at..]
            && BulkIv(b.size, iv, f) == f[at..] + reg[|src| - at..] + iv[b.size..]
            && LastFull(b.size, iv[..b.size], f) == reg
            && Tail(b.size, f) == f[at..]
  {
  }

  /** Every byte of the block in hand is the input byte combined with the encrypted register. */
  lemma ProgressByte(b: Block, iv: seq<byte>, src: seq<byte>, feedInput: bool, at: nat, reg: seq<byte>, pos: nat)
    requires Progress(b, iv, src, feedInput, at, reg) && pos < b.size && at + pos < |src|
    ensures var out := Cfb(b, iv[..b.size], src, feedInput);
            && out[at + pos] == Xor(src[at + pos], b.encrypt(reg)[pos])
            && Fed(b, iv[..b.size], src, feedInput)[at + pos] == (if feedInput then src else out)[at + pos]
  {
    var out := Cfb(b, iv[..b.size], src, feedInput);
    assert out[at + pos] == out[at..][pos] && src[at + pos] == src[at..][pos];
    if |src| - at < b.size {
      ProgressEnd(b, iv, src, feedInput, at, reg);
    } else {
      ProgressStep(b, iv, src, feedInput, at, reg);
      assert out[at..at + b.size][pos] == out[at..][pos];
    }
  }

  /** The second half of an overflow buffer: `fed` was collected on top of `before`. */
  ghost predicate Collected(size: nat, overflow: seq<byte>, fed: seq<byte>, before: seq<byte>) {
    && |overflow| == 2 * size && |fed| <= size == |before|
    && overflow[size..] == fed + before[|fed|..]
  }

  /**
   * The byte-by-byte loop before byte `i`: `start` is where its block began; the first half of the
   * overflow buffer is the register and the second half collects the bytes to feed back.
   */
  ghost predicate SlowState(b: Block, iv: seq<byte>, src: seq<byte>, feedInput: bool,
                            i: nat, start: nat, overflow: seq<byte>) {
    && |iv| >= b.size && |overflow| == 2 * b.size
    && start <= i <= |src| && i - start < b.size
    && Progress(b, iv, src, feedInput, start, overflow[..b.size])
    && Collected(b.size, overflow, Fed(b, iv[..b.size], src, feedInput)[start..i],
                 if start == 0 then Padding(b.size, iv) else overflow[..b.size])
  }

  lemma SlowStart(b: Block, iv: seq<byte>, src: seq<byte>, feedInput: bool, overflow: seq<byte>)
    requires |iv| >= b.size && overflow == iv[..b.size] + Padding(b.size, iv)
    ensures SlowState(b, iv, src, feedInput, 0, 0, overflow)
  {
    hide Cfb, Fed, Progress, Padding;
    ProgressStart(b, iv, src, feedInput);
    Halves(iv[..b.size], Padding(b.size, iv));
    assert [] + Padding(b.size, iv)[0..] == Padding(b.size, iv);
  }

  /** The byte to feed back is stored; a full second half is shifted into the register. */
  function Store(size: nat, overflow: seq<byte>, pos: nat, x: byte): (o: seq<byte>)
    requires pos < size && |overflow| == 2 * size
    ensures |o| == 2 * size
  {
    var o := overflow[size + pos := x];
    if pos == size - 1 then o[size..] + o[size..] else o
  }

  lemma StoreInside(size: nat, overflow: seq<byte>, fed: seq<byte>, before: seq<byte>, x: byte)
    requires Collected(size, overflow, fed, before) && |fed| + 1 < size
    ensures var o := Store(size, overflow, |fed|, x);
            o[..size] == overflow[..size] && Collected(size, o, fed + [x], before)
  {
    var o := Store(size, overflow, |fed|, x);
    assert o[size..] == overflow[size..][|fed| := x];
  }

  lemma StoreLast(size: nat, overflow: seq<byte>, fed: seq<byte>, before: seq<byte>, x: byte)
    requires Collected(size, overflow, fed, before) && |fed| + 1 == size
    ensures var o := Store(size, overflow, |fed|, x);
            o[..size] == fed + [x] && Collected(size, o, [], o[..size])
  {
    var o := overflow[size + |fed| := x];
    assert o[size..] == overflow[size..][|fed| := x] == fed + [x];
    Halves(o[size..], o[size..]);
    assert [] + o[size..][0..] == o[size..];
  }

  lemma SlowStep(b: Block, iv: seq<byte>, src: seq<byte>, feedInput: bool, i: nat, start: nat, overflow: seq<byte>)
    requires SlowState(b, iv, src, feedInput, i, start, overflow) && i < |src|
    ensures var pos, f := i - start, Fed(b, iv[..b.size], src, feedInput);
            SlowState(b, iv, src, feedInput, i + 1, if pos == b.size - 1 then i + 1 else start,
                      Store(b.size, overflow, pos, f[i]))
  {
    hide Cfb, Fed, LastFull, Tail, Padding, Progress, Store, Collected;
    var size, f := b.size, Fed(b, iv[..b.size], src, feedInput);
    var before := if start == 0 then Padding(size, iv) else overflow[..size];
    assert f[start..i] + [f[i]] == f[start..i + 1];
    if i - start == size - 1 {
      StoreLast(size, overflow, f[start..i], before, f[i]);
      ProgressStep(b, iv, src, feedInput, start, overflow[..size]);
      assert f[i + 1..i + 1] == [];
    } else {
      StoreInside(size, overflow, f[start..i], before, f[i]);
    }
  }

  lemma SlowEnd(b: Block, iv: seq<byte>, src: seq<byte>, feedInput: bool, start: nat, overflow: seq<byte>)
    requires SlowState(b, iv, src, feedInput, |src|, start, overflow)
    ensures var m := Min(|iv|, 2 * b.size);
            SlowIv(b.size, iv, Fed(b, iv[..b.size], src, feedInput)) == overflow[..m] + iv[m..]
  {
    hide Cfb, Fed, LastFull, Tail, Padding, Progress;
    var size, f := b.size, Fed(b, iv[..b.size], src, feedInput);
    ProgressEnd(b, iv, src, feedInput, start, overflow[..size]);
    if start > 0 {
      StartedBlock(size, f, start);
    }
    var before := if start == 0 then Padding(size, iv) else overflow[..size];
    assert f[start..|src|] == Tail(size, f);
    Cut(overflow, size);
    Assoc(overflow[..size], Tail(size, f), before[|Tail(size, f)|..]);
  }

  lemma StartedBlock(size: nat, f: seq<byte>, start: nat)
    requires size > 0 && 0 < start <= |f| && Tail(size, f) == f[start..]
    ensures |f| >= size
  {
  }

  // ---------------------------------------------------------------- writing over a slice

  /** `d` with `x` written over it from `start` on. */
  function Overlay(d: seq<byte>, start: nat, x: seq<byte>): (r: seq<byte>)
    requires start + |x| <= |d|
    ensures |r| == |d|
  {
    d[..start] + x + d[start + |x|..]
  }

  lemma OverlayNone(d: seq<byte>, start: nat, x: seq<byte>)
    requires start <= |d| && x == []
    ensures Overlay(d, start, x) == d
  {
    Cut(d, start);
  }

  lemma OverlayNext(d: seq<byte>, start: nat, x: seq<byte>, y: byte)
    requires start + |x| < |d|
    ensures Overlay(d, start, x)[start + |x| := y] == Overlay(d, start, x + [y])
  {
  }

  /** What is written, what precedes it, and what lies beyond a later position m. */
  lemma OverlayParts(d: seq<byte>, start: nat, x: seq<byte>, m: nat)
    requires start + |x| <= m <= |d|
    ensures var r, end := Overlay(d, start, x), start + |x|;
            r[..end] == d[..start] + x && r[start..end] == x && r[end..] == d[end..] && r[m..] == d[m..]
  {
  }

  /** Two sequences that agree from one position on agree from every later one on. */
  lemma AgreeLater(a: seq<byte>, b: seq<byte>, from: nat, to: nat)
    requires from <= to <= |a| == |b| && a[from..] == b[from..]
    ensures a[to..] == b[to..] && a[from..to] == b[from..to]
  {
    Piece(a, from, to - from);
    Piece(b, from, to - from);
  }

  /** What is not yet written over is still there. */
  lemma UnderOverlay(d: seq<byte>, start: nat, x: seq<byte>, a: seq<byte>)
    requires start + |x| < |d|
    ensures Overlay(d, start, x)[start + |x|] == d[start + |x|]
    ensures start + |a| <= |d| && |x| < |a| && d[start..start + |a|] == a ==> d[start + |x|] == a[|x|]
  {
    if start + |a| <= |d| && |x| < |a| && d[start..start + |a|] == a {
      assert d[start..start + |a|][|x|] == d[start + |x|];
    }
  }

  lemma XorSeqNext(a: seq<byte>, k: seq<byte>, j: nat)
    requires j < |a| <= |k|
    ensures XorSeq(a[..j], k) + [Xor(a[j], k[j])] == XorSeq(a[..j + 1], k)
  {
    hide Xor;
  }

  /** The byte just written. */
  lemma FedByte(d: seq<byte>, start: nat, a: seq<byte>, k: seq<byte>, j: nat)
    requires j < |a| <= |k| && start + |a| <= |d|
    ensures Overlay(d, start, XorSeq(a[..j + 1], k))[start + j] == XorSeq(a, k)[j]
  {
    hide Xor;
  }

  class CFB8 {
    const block: Block
    const iv: array<byte>
    const tmp: array<byte>
    const de: bool

    ghost predicate Valid() {
      iv.Length >= block.size && tmp.Length == block.size && iv != tmp
    }

    /** NewCFB8Encrypt / NewCFB8Decrypt. The block function reads one block of the IV, so it needs that much. */
    constructor (block: Block, iv: seq<byte>, de: bool)
      ensures (Valid() <==> |iv| >= block.size) && fresh(this.iv) && fresh(this.tmp)
      ensures this.block == block && this.de == de && this.iv[..] == iv
    {
      this.block, this.de := block, de;
      var copied := new byte[|iv|](i requires 0 <= i < |iv| => iv[i]);
      this.iv := copied;
      this.tmp := new byte[block.size];
    }

    /** Buffers of the caller: large enough, and not the object's own. */
    ghost predicate Buffers(dst: array<byte>, src: array<byte>) {
      dst.Length >= src.Length && dst != iv && dst != tmp && src != iv && src != tmp
    }

    /** Which bytes are fed back depends on the direction, and on whether the input survives. */
    ghost predicate FeedsInput(dst: array<byte>, src: array<byte>) {
      de && dst != src
    }

    /** s.block.Encrypt(s.tmp, reg). */
    method EncryptBlock(reg: seq<byte>)
      requires Valid() && |reg| == block.size
      modifies tmp
      ensures tmp[..] == block.encrypt(reg)
    {
      var e := block.encrypt(reg);
      forall k | 0 <= k < block.size {
        tmp[k] := e[k];
      }
    }

    /** One byte of that loop. */
    method XorByte(dst: array<byte>, src: array<byte>, start: nat, j: nat, ghost d0: seq<byte>, ghost a: seq<byte>)
      requires Valid() && Buffers(dst, src) && j < |a| <= block.size && start + |a| <= src.Length && |d0| == dst.Length
      requires dst[..] == Overlay(d0, start, XorSeq(a[..j], tmp[..])) && src[start + j] == a[j]
      modifies dst
      ensures dst[..] == Overlay(d0, start, XorSeq(a[..j + 1], tmp[..]))
    {
      hide Xor, XorSeq, Overlay;
      ghost var before := dst[..];
      OverlayNext(d0, start, XorSeq(a[..j], tmp[..]), Xor(a[j], tmp[j]));
      XorSeqNext(a, tmp[..], j);
      dst[start + j] := Xor(src[start + j], tmp[j]);
      assert dst[..] == before[start + j := Xor(a[j], tmp[j])];
    }

    /** dst[start+j] = src[start+j] ^ s.tmp[j] for the next n bytes. */
    method XorRange(dst: array<byte>, src: array<byte>, start: nat, n: nat)
      requires Valid() && Buffers(dst, src)
      requires n <= block.size && start + n <= src.Length
      modifies dst
      ensures dst[..] == Overlay(old(dst[..]), start, XorSeq(old(src[start..start + n]), tmp[..]))
    {
      hide XorSeq, Overlay;
      ghost var d0, a := dst[..], src[start..start + n];
      OverlayNone(d0, start, XorSeq(a[..0], tmp[..]));
      var j := 0;
      while j < n
        invariant 0 <= j <= n
        invariant dst[..] == Overlay(d0, start, XorSeq(a[..j], tmp[..]))
        invariant dst != src ==> src[start..start + n] == a
      {
        UnderOverlay(d0, start, XorSeq(a[..j], tmp[..]), a);
        assert src[start + j] == a[j] by {
          if dst == src {
            assert dst[..][start + j] == src[start + j];
          } else {
            assert src[start..start + n][j] == a[j];
          }
        }
        XorByte(dst, src, start, j, d0, a);
        j := j + 1;
      }
      assert a[..n] == a;
    }

    /** copy(s.iv, from[start : start+blockSize]). */
    method CopyToIv(from: array<byte>, start: nat)
      requires Valid() && from != iv && start + block.size <= from.Length
      modifies iv
      ensures iv[..] == from[start..start + block.size] + old(iv[block.size..])
    {
      forall k | 0 <= k < block.size {
        iv[k] := from[start + k];
      }
    }

    method ByteByByteXOR(dst: array<byte>, src: array<byte>)
      requires Valid() && Buffers(dst, src)
      modifies dst, iv, tmp
      ensures var iv0, s0, fi := old(iv[..]), old(src[..]), FeedsInput(dst, src);
              && dst[..src.Length] == Cfb(block, iv0[..block.size], s0, fi)
              && iv[..] == SlowIv(block.size, iv0, Fed(block, iv0[..block.size], s0, fi))
      ensures dst[src.Length..] == old(dst[src.Length..])
    {
      hide Cfb, Fed, LastFull, Tail, Progress, SlowState, SlowIv, Store;
      ghost var iv0, s0, fi := iv[..], src[..], FeedsInput(dst, src);
      ghost var out, f := Cfb(block, iv0[..block.size], s0, fi), Fed(block, iv0[..block.size], s0, fi);
      var overflow := NewOverflow();
      SlowStart(block, iv0, s0, fi, overflow[..]);
      ghost var start: nat := 0;
      var i := 0;
      while i < src.Length
        invariant 0 <= i <= src.Length
        invariant SlowState(block, iv0, s0, fi, i, start, overflow[..])
        invariant start <= i && i % block.size == i - start
        invariant start < i ==> tmp[..] == block.encrypt(overflow[..block.size])
        invariant iv[..] == iv0
        invariant dst[..i] == out[..i] && dst[src.Length..] == old(dst[src.Length..])
        invariant if dst == src then src[i..] == s0[i..] else src[..] == s0
      {
        i, start := SlowByte(dst, src, overflow, i, start, iv0, s0, fi);
      }
      SlowEnd(block, iv0, s0, fi, start, overflow[..]);
      assert dst[..src.Length] == out;
      CopyOverflow(overflow);
    }

    /** copy(s.iv, overflow). */
    method CopyOverflow(overflow: array<byte>)
      requires Valid() && overflow != iv && overflow.Length == 2 * block.size
      modifies iv
      ensures var m := Min(iv.Length, 2 * block.size);
              iv[..] == overflow[..m] + old(iv[m..])
    {
      var m := Min(iv.Length, 2 * block.size);
      forall k | 0 <= k < m {
        iv[k] := overflow[k];
      }
    }

    /** make([]byte, blockSize*2), then copy(overflow, s.iv). */
    method NewOverflow() returns (overflow: array<byte>)
      requires Valid()
      ensures fresh(overflow) && overflow[..] == iv[..block.size] + Padding(block.size, iv[..])
    {
      overflow := new byte[2 * block.size](_ => 0);
      forall k | 0 <= k < Min(2 * block.size, iv.Length) {
        overflow[k] := iv[k];
      }
    }

    /** overflow[i%blockSize+blockSize] = x, and the shift at the end of a block. */
    method StoreByte(overflow: array<byte>, pos: nat, x: byte)
      requires Valid() && overflow.Length == 2 * block.size && pos < block.size
      modifies overflow
      ensures overflow[..] == Store(block.size, old(overflow[..]), pos, x)
      ensures pos < block.size - 1 ==> overflow[..block.size] == old(overflow[..block.size])
    {
      overflow[pos + block.size] := x;
      if pos == block.size - 1 {
        forall k | 0 <= k < block.size {
          overflow[k] := overflow[block.size + k];
        }
      }
    }

    /** The loop body for byte i. */
    method SlowByte(dst: array<byte>, src: array<byte>, overflow: array<byte>, i: nat, ghost start: nat,
                    ghost iv0: seq<byte>, ghost s0: seq<byte>, ghost fi: bool)
      returns (i': nat, ghost start': nat)
      requires Valid() && Buffers(dst, src) && |iv0| == iv.Length
      requires overflow != dst && overflow != src && overflow != tmp && overflow != iv
      requires overflow.Length == 2 * block.size
      requires i < src.Length == |s0| && start <= i && i % block.size == i - start && fi == FeedsInput(dst, src)
      requires SlowState(block, iv0, s0, fi, i, start, overflow[..])
      requires start < i ==> tmp[..] == block.encrypt(overflow[..block.size])
      requires dst[..i] == Cfb(block, iv0[..block.size], s0, fi)[..i]
      requires if dst == src then src[i..] == s0[i..] else src[..] == s0
      modifies dst, tmp, overflow
      ensures i' == i + 1 && start' <= i' && i' % block.size == i' - start'
      ensures SlowState(block, iv0, s0, fi, i', start', overflow[..])
      ensures start' < i' ==> tmp[..] == block.encrypt(overflow[..block.size])
      ensures dst[..i'] == Cfb(block, iv0[..block.size], s0, fi)[..i']
      ensures dst[src.Length..] == old(dst[src.Length..])
      ensures if dst == src then src[i'..] == s0[i'..] else src[..] == s0
    {
      hide Cfb, Fed, LastFull, Tail, Progress, SlowState, Store;
      var size, pos := block.size, i % block.size;
      ghost var out, f := Cfb(block, iv0[..size], s0, fi), Fed(block, iv0[..size], s0, fi);
      ghost var ov := overflow[..];
      assert src[i] == s0[i] by { assert dst == src ==> src[i..][0] == s0[i..][0]; }
      SlowBytes(block, iv0, s0, fi, i, start, ov);
      SlowStep(block, iv0, s0, fi, i, start, ov);
      if pos == 0 {
        EncryptBlock(overflow[..size]);
      }
      dst[i] := Xor(src[i], tmp[pos]);
      assert dst[..i + 1] == out[..i] + [out[i]];
      assert dst[src.Length..] == old(dst[src.Length..]);
      StoreByte(overflow, pos, if de then src[i] else dst[i]);
      i', start' := i + 1, if pos == size - 1 then i + 1 else start;
      NextPosition(i, size);
      assert dst == src ==> src[i + 1..] == s0[i..][1..];
    }

    method XORKeyStream(dst: array<byte>, src: array<byte>)
      requires Valid() && Buffers(dst, src)
      modifies dst, iv, tmp
      ensures var iv0, s0, fi := old(iv[..]), old(src[..]), FeedsInput(dst, src);
              && dst[..src.Length] == Cfb(block, iv0[..block.size], s0, fi)
              && iv[..] == NextIv(block.size, iv0, Fed(block, iv0[..block.size], s0, fi))
      ensures dst[src.Length..] == old(dst[src.Length..])
    {
      hide Cfb, LastFull, Tail, SlowIv, BulkIv;
      if src.Length == 0 {
        return;
      }
      if src.Length >= block.size * 2 {
        BulkXOR(dst, src);
        return;
      }
      ByteByByteXOR(dst, src);
    }

    method BulkXOR(dst: array<byte>, src: array<byte>)
      requires Valid() && Buffers(dst, src)
      modifies dst, iv, tmp
      ensures var iv0, s0, fi := old(iv[..]), old(src[..]), FeedsInput(dst, src);
              && dst[..src.Length] == Cfb(block, iv0[..block.size], s0, fi)
              && iv[..] == BulkIv(block.size, iv0, Fed(block, iv0[..block.size], s0, fi))
      ensures dst[src.Length..] == old(dst[src.Length..])
    {
      hide Cfb, Fed, LastFull, Tail, Progress, BulkIv;
      ghost var iv0, s0, fi := iv[..], src[..], FeedsInput(dst, src);
      ghost var out, f := Cfb(block, iv0[..block.size], s0, fi), Fed(block, iv0[..block.size], s0, fi);
      var blocks, remainder := src.Length / block.size, src.Length % block.size;
      var i, start := 0, 0;
      ProgressStart(block, iv0, s0, fi);
      while i < blocks
        invariant 0 <= i <= blocks && start == i * block.size && start <= src.Length
        invariant iv[block.size..] == iv0[block.size..]
        invariant Progress(block, iv0, s0, fi, start, iv[..block.size])
        invariant dst[..start] == out[..start] && dst[src.Length..] == old(dst[src.Length..])
        invariant if dst == src then src[start..] == s0[start..] else src[..] == s0
      {
        BlockFits(i, blocks, block.size, src.Length);
        BulkBlock(dst, src, start, iv0, s0, fi);
        i, start := i + 1, start + block.size;
      }
      assert start + remainder == src.Length by { DivisionParts(src.Length, block.size); }
      BulkTail(dst, src, start, remainder, iv0, s0, fi);
    }

    /** The body of the block loop. */
    method BulkBlock(dst: array<byte>, src: array<byte>, start: nat,
                     ghost iv0: seq<byte>, ghost s0: seq<byte>, ghost fi: bool)
      requires Valid() && Buffers(dst, src)
      requires start + block.size <= src.Length == |s0| && fi == FeedsInput(dst, src)
      requires |iv0| == iv.Length && Progress(block, iv0, s0, fi, start, iv[..block.size])
      requires iv[block.size..] == iv0[block.size..]
      requires dst[..start] == Cfb(block, iv0[..block.size], s0, fi)[..start]
      requires if dst == src then src[start..] == s0[start..] else src[..] == s0
      modifies dst, iv, tmp
      ensures Progress(block, iv0, s0, fi, start + block.size, iv[..block.size])
      ensures iv[block.size..] == iv0[block.size..]
      ensures dst[..start + block.size] == Cfb(block, iv0[..block.size], s0, fi)[..start + block.size]
      ensures dst[src.Length..] == old(dst[src.Length..])
      ensures if dst == src then src[start + block.size..] == s0[start + block.size..] else src[..] == s0
    {
      hide Cfb, Fed, LastFull, Tail, Progress, XorSeq, Overlay;
      ghost var end, d0 := start + block.size, dst[..];
      ghost var out := Cfb(block, iv0[..block.size], s0, fi);
      AgreeLater(src[..], s0, start, end);
      assert src[start..end] == s0[start..end];
      ProgressStep(block, iv0, s0, fi, start, iv[..block.size]);
      EncryptBlock(iv[..block.size]);
      XorRange(dst, src, start, block.size);
      OverlayParts(d0, start, out[start..end], src.Length);
      assert dst[..end] == out[..start] + out[start..end] == out[..end];
      assert dst[start..end] == out[start..end];
      if de {
        CopyToIv(src, start);
      } else {
        CopyToIv(dst, start);
      }
    }

    /** The partial block: its fed-back bytes overwrite the front of the IV. */
    method BulkTail(dst: array<byte>, src: array<byte>, start: nat, remainder: nat,
                    ghost iv0: seq<byte>, ghost s0: seq<byte>, ghost fi: bool)
      requires Valid() && Buffers(dst, src)
      requires start + remainder == src.Length == |s0| && remainder < block.size && fi == FeedsInput(dst, src)
      requires |iv0| == iv.Length && Progress(block, iv0, s0, fi, start, iv[..block.size])
      requires iv[block.size..] == iv0[block.size..]
      requires dst[..start] == Cfb(block, iv0[..block.size], s0, fi)[..start]
      requires if dst == src then src[start..] == s0[start..] else src[..] == s0
      modifies dst, iv, tmp
      ensures dst[..src.Length] == Cfb(block, iv0[..block.size], s0, fi)
      ensures iv[..] == BulkIv(block.size, iv0, Fed(block, iv0[..block.size], s0, fi))
      ensures dst[src.Length..] == old(dst[src.Length..])
    {
      hide Cfb, Fed, LastFull, Tail, Progress, BulkIv, XorSeq, Overlay;
      ghost var out, f := Cfb(block, iv0[..block.size], s0, fi), Fed(block, iv0[..block.size], s0, fi);
      ghost var d0, v0 := dst[..], iv[..];
      ProgressEnd(block, iv0, s0, fi, start, v0[..block.size]);
      WriteTail(dst, src, start, remainder, s0[start..]);
      OverlayEnd(d0, start, out, dst[..]);
      OverlayIv(v0, block.size, f[start..]);
    }

    /** The block function once more, if there is a partial block. */
    method WriteTail(dst: array<byte>, src: array<byte>, start: nat, remainder: nat, ghost a: seq<byte>)
      requires Valid() && Buffers(dst, src)
      requires start + remainder == src.Length && remainder < block.size && src[start..] == a
      modifies dst, iv, tmp
      ensures var x := XorSeq(a, block.encrypt(old(iv[..block.size])));
              && dst[..] == Overlay(old(dst[..]), start, x)
              && iv[..] == Overlay(old(iv[..]), 0, if FeedsInput(dst, src) then a else x)
    {
      hide XorSeq, Overlay;
      if remainder > 0 {
        EncryptBlock(iv[..block.size]);
        XorTail(dst, src, start, remainder);
      } else {
        ghost var x := XorSeq(a, block.encrypt(iv[..block.size]));
        OverlayNone(dst[..], start, x);
        OverlayNone(iv[..], 0, x);
      }
    }

    /** The loop over the partial block. */
    method XorTail(dst: array<byte>, src: array<byte>, start: nat, remainder: nat)
      requires Valid() && Buffers(dst, src)
      requires start + remainder == src.Length && remainder < block.size
      modifies dst, iv
      ensures var x := XorSeq(old(src[start..]), tmp[..]);
              && dst[..] == Overlay(old(dst[..]), start, x)
              && iv[..] == Overlay(old(iv[..]), 0, if FeedsInput(dst, src) then old(src[start..]) else x)
    {
      hide XorSeq, Overlay;
      ghost var d0, a, iv0 := dst[..], src[start..], iv[..];
      ghost var fed := if FeedsInput(dst, src) then a else XorSeq(a, tmp[..]);
      OverlayNone(d0, start, XorSeq(a[..0], tmp[..]));
      OverlayNone(iv0, 0, fed[..0]);
      var j := 0;
      while j < remainder
        invariant 0 <= j <= remainder
        invariant dst[..] == Overlay(d0, start, XorSeq(a[..j], tmp[..]))
        invariant iv[..] == Overlay(iv0, 0, fed[..j])
        invariant dst != src ==> src[start..] == a
      {
        UnderOverlay(d0, start, XorSeq(a[..j], tmp[..]), a);
        assert src[start + j] == a[j] by {
          if dst == src {
            assert dst[..][start + j] == src[start + j];
          } else {
            assert src[start..][j] == a[j];
          }
        }
        XorByte(dst, src, start, j, d0, a);
        FedByte(d0, start, a, tmp[..], j);
        assert dst[..][start + j] == dst[start + j];
        FeedByte(if de then src[start + j] else dst[start + j], j, iv0, fed);
        j := j + 1;
      }
      assert a[..remainder] == a && fed[..remainder] == fed;
    }

    /** s.iv[j] = x. */
    method FeedByte(x: byte, j: nat, ghost iv0: seq<byte>, ghost fed: seq<byte>)
      requires j < |fed| <= iv.Length == |iv0| && x == fed[j] && iv[..] == Overlay(iv0, 0, fed[..j])
      modifies iv
      ensures iv[..] == Overlay(iv0, 0, fed[..j + 1])
    {
      hide Overlay;
      ghost var before := iv[..];
      OverlayNext(iv0, 0, fed[..j], x);
      assert fed[..j] + [x] == fed[..j + 1];
      iv[j] := x;
      assert iv[..] == before[j := x];
    }
  }

  /** The last piece of the output, written over the destination. */
  lemma OverlayEnd(d: seq<byte>, start: nat, out: seq<byte>, r: seq<byte>)
    requires start <= |out| <= |d| && d[..start] == out[..start] && r == Overlay(d, start, out[start..])
    ensures r[..|out|] == out && r[|out|..] == d[|out|..]
  {
    hide Overlay;
    OverlayParts(d, start, out[start..], |out|);
    Cut(out, start);
  }

  /** An IV whose front was written over, by its parts. */
  lemma OverlayIv(iv: seq<byte>, size: nat, x: seq<byte>)
    requires |x| <= size <= |iv|
    ensures Overlay(iv, 0, x) == x + iv[..size][|x|..] + iv[size..]
  {
    assert iv[|x|..] == iv[..size][|x|..] + iv[size..];
    Assoc(x, iv[..size][|x|..], iv[size..]);
    assert iv[..0] + x == x;
  }

  lemma SlowBytes(b: Block, iv: seq<byte>, src: seq<byte>, feedInput: bool, i: nat, start: nat, overflow: seq<byte>)
    requires SlowState(b, iv, src, feedInput, i, start, overflow) && i < |src|
    ensures i - start < b.size
    ensures var out := Cfb(b, iv[..b.size], src, feedInput);
            && out[i] == Xor(src[i], b.encrypt(overflow[..b.size])[i - start])
            && Fed(b, iv[..b.size], src, feedInput)[i] == (if feedInput then src else out)[i]
  {
    ProgressByte(b, iv, src, feedInput, start, overflow[..b.size], i - start);
  }

  lemma NextPosition(i: nat, size: nat)
    requires size > 0
    ensures (i + 1) % size == if i % size == size - 1 then 0 else i % size + 1
  {
    var q, r := i / size, i % size;
    assert i + 1 == size * q + (r + 1);
    if r == size - 1 {
      assert i + 1 == size * (q + 1) + 0;
      DivUnique(i + 1, size, q + 1, 0);
    } else {
      DivUnique(i + 1, size, q, r + 1);
    }
  }

  lemma DivisionParts(n: nat, size: nat)
    requires size > 0
    ensures n / size * size + n % size == n && n % size < size
  {
  }

  lemma BlockFits(i: nat, blocks: nat, size: nat, n: nat)
    requires size > 0 && i < blocks && blocks == n / size
    ensures i * size + size <= n && (i + 1) * size == i * size + size
  {
    MultiplesGrow(i, blocks, size);
    DivisionParts(n, size);
  }

  lemma MultiplesGrow(i: int, blocks: int, size: int)
    requires size > 0 && i < blocks
    ensures (i + 1) * size == i * size + size <= blocks * size
  {
    NonNegative(blocks - i - 1, size);
    assert (blocks - i - 1) * size == blocks * size - (i + 1) * size;
  }

  lemma NonNegative(x: int, y: int)
    requires x >= 0 && y > 0
    ensures x * y >= 0
  {
  }
}
