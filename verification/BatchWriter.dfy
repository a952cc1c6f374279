/** BatchWriter of conn/batch.go: writes collect in a pooled buffer and leave it in one piece. */
module BatchWriter {
  import opened Bytes
  import opened Streams
  import opened BufferPool
  import opened BatchProtocol

  class Writer {
    const dst: ByteSink
    const pool: Pool
    const buf: array<byte>
    const size: nat       // len(buf); the array is cap(buf)
    const threshold: nat
    const timed: bool
    var buffered: nat
    var closed: bool
    var armed: bool
    var ticked: bool
    var taken: bool

    ghost predicate Valid()
      reads this
    {
      && size <= buf.Length && buffered <= size && threshold == size / 2
      && (buffered == 0 || buffered < threshold)
    }

    /** The writer as a value. */
    ghost function View(): Batch
      reads this, buf, dst
      requires buffered <= buf.Length
    {
      Batch(size, buf.Length, timed, buf[..buffered], closed, armed, ticked, taken, dst.written, dst.room)
    }

    /** NewBatchWriter: a pooled buffer may be longer than asked for, and holds stale bytes. */
    constructor (dst: ByteSink, pool: Pool, timed: bool, bufferSize: nat)
      requires pool.Valid()
      modifies pool
      ensures Valid() && this.dst == dst && this.pool == pool
      ensures View() == Init(bufferSize, buf.Length, timed, dst.room).(out := dst.written)
      ensures pool.Valid() && buf !in old(pool.live) && pool.live == old(pool.live) + {buf}
      ensures if buf in old(pool.free) then 0 < buf.Length <= BUFFER_POOL_MAX
              else fresh(buf) && buf.Length == bufferSize
      ensures |pool.free| <= |old(pool.free)|
      ensures forall i :: 0 <= i < |pool.free| ==> pool.free[i] in old(pool.free)
    {
      this.dst, this.pool, this.timed, this.size, this.threshold := dst, pool, timed, bufferSize, bufferSize / 2;
      var b := pool.GetBuffer(bufferSize);
      buf := b;
      buffered, closed, armed, ticked, taken := 0, false, false, false, false;
    }

    method FlushLocked() returns (ok: bool)
      requires size <= buf.Length && buffered <= size && threshold == size / 2
      modifies this, dst
      ensures Valid() && View() == BatchProtocol.FlushLocked(old(View()))
      ensures ok == FlushOk(old(View()))
    {
      if buffered == 0 {
        return true;
      }
      ok := dst.Write(buf[..buffered]);
      buffered := 0;
      if timed {
        armed, ticked := false, false;
      }
    }

    method Write(data: seq<byte>) returns (r: Result)
      requires Valid()
      modifies this, buf, dst
      ensures Valid() && (View(), r) == BatchProtocol.Write(old(View()), data)
      ensures !closed && old(buffered) + |data| < size / 2 ==>
                && r == Wrote(|data|) && dst.written == old(dst.written) && dst.room == old(dst.room)
                && buf[..buffered] == old(buf[..buffered]) + data && (timed ==> armed && !ticked)
      ensures !closed && size / 2 <= old(buffered) + |data| <= old(dst.room) && Fits(old(View()), data) ==>
                && r == Wrote(|data|) && dst.written == old(dst.written) + old(buf[..buffered]) + data
                && buffered == 0
    {
      ghost var v := View();
      hide BatchProtocol.FlushLocked, FlushOk, Append, Fits;
      if closed {
        return Closed;
      }
      WriteBySize(v, data);
      FlushValid(View());
      if |data| > buf.Length - buffered {
        var ok := FlushLocked();
        if !ok {
          return Broken(0);
        }
      }
      if |data| > buf.Length {
        var room := dst.room;
        var ok := dst.Write(data);
        return if ok then Wrote(|data|) else Broken(Min(|data|, room));
      }
      r := AppendData(data);
    }

    /** copy(buf[buffered:], data): as much as the slice has room for. */
    method CopyIn(data: seq<byte>) returns (n: nat)
      requires Valid()
      modifies this`buffered, buf
      ensures buffered <= size && n == Min(|data|, size - old(buffered))
      ensures View() == old(View()).(content := old(View()).content + data[..n])
    {
      n := Min(|data|, size - buffered);
      CopyInto(buf, buffered, data[..n]);
      buffered := buffered + n;
    }

    /** The copy, then a flush or a restart of the timer. */
    method AppendData(data: seq<byte>) returns (r: Result)
      requires Valid()
      modifies this, buf, dst
      ensures Valid() && (View(), r) == Append(old(View()), data)
      ensures old(buffered) + |data| < size / 2 ==>
                && r == Wrote(|data|) && dst.written == old(dst.written) && dst.room == old(dst.room)
                && buf[..buffered] == old(buf[..buffered]) + data && (timed ==> armed && !ticked)
      ensures size / 2 <= old(buffered) + |data| <= size && old(buffered) + |data| <= old(dst.room) ==>
                && r == Wrote(|data|) && dst.written == old(dst.written) + old(buf[..buffered]) + data
                && buffered == 0
    {
      hide BatchProtocol.FlushLocked, FlushOk;
      ghost var v := View();
      AppendValid(v, data);
      AppendBySize(v, data);
      var n := CopyIn(data);
      if buffered >= threshold {
        var ok := FlushLocked();
        return if ok then Wrote(|data|) else Broken(n);
      }
      if timed {
        armed, ticked := true, false;
      }
      r := Wrote(|data|);
    }

    method Flush() returns (ok: bool)
      requires Valid()
      modifies this, dst
      ensures Valid() && View() == BatchProtocol.FlushLocked(old(View())) && ok == FlushOk(old(View()))
    {
      ok := FlushLocked();
    }

    /** One round of flushLoop, after it received a tick. */
    method FlushTick()
      requires Valid() && taken
      modifies this, dst
      ensures Valid() && View() == Next(old(View()), Tick)
    {
      if !closed && buffered > 0 {
        var _ := FlushLocked();
      }
      taken := false;
    }

    /**
     * Close offers the buffer back, every time it is called. The first time the buffer is out and the pool
     * stays sound; another call while the buffer is in the pool's list puts it there twice.
     */
    method Close() returns (ok: bool)
      requires Valid() && pool.Valid()
      modifies this, dst, pool
      ensures Valid() && View() == BatchProtocol.Close(old(View())) && ok == FlushOk(old(View()))
      ensures pool.Valid() <==> !(old(pool.Keeps(buf)) && buf in old(pool.free))
      ensures pool.live == old(pool.live) - {buf}
      ensures pool.free == if old(pool.Keeps(buf)) then old(pool.free) + [buf] else old(pool.free)
    {
      closed := true;
      if timed {
        armed, ticked := false, false;
      }
      ok := FlushLocked();
      pool.PutBuffer(buf);
    }
  }

  /**
   * Closing twice does to buffer and destination what closing once does; the pool it leaves listing the
   * buffer twice, exactly when the buffer is of a pooled size and the list has two free slots.
   */
  method CloseTwice(w: Writer) returns (first: bool, second: bool)
    requires w.Valid() && w.pool.Valid() && w.buf in w.pool.live
    modifies w, w.dst, w.pool
    ensures w.Valid() && w.View() == BatchProtocol.Close(old(w.View())) && first == FlushOk(old(w.View())) && second
    ensures w.pool.Valid() <==> !(0 < w.buf.Length <= BUFFER_POOL_MAX && |old(w.pool.free)| + 1 < POOL_SLOTS)
  {
    first := w.Close();
    ClosedAgain(old(w.View()));
    second := w.Close();
  }

  lemma ClosedAgain(b: Batch)
    ensures var c := BatchProtocol.Close(b);
            BatchProtocol.Close(c) == c && FlushOk(c)
  {
  }

  /** So it happens to every new writer of a pooled size over a new pool. */
  method DoubleClose(dst: ByteSink, timed: bool, bufferSize: nat) returns (pool: Pool)
    requires 0 < bufferSize <= BUFFER_POOL_MAX
    modifies dst
    ensures !pool.Valid()
  {
    pool := new Pool();
    var w := new Writer(dst, pool, timed, bufferSize);
    var _, _ := CloseTwice(w);
  }
}
