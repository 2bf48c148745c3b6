/**
 * The in-memory byte streams: a reader over a byte vector it does not own,
 * a writer that owns a growable byte vector, and a stream that is both, whose
 * reader views the writer's vector. Reader and writer share one failure flag,
 * as they share the virtual base `MemoryIoBase` in the source.
 *
 * A `std::vector<uint8_t>` is a `ByteVector` object whose contents are a
 * sequence, so that the reader can point at the writer's vector; `size_t`
 * cursors are unbounded naturals.
 */
module MemoryIo {
  import opened Wire

  // ---------------------------------------------------------------- growth rule

  /** `cur * 2^j`: `cur` doubled `j` times. */
  function Doubled(cur: nat, j: nat): (r: nat)
    ensures r >= cur
  {
    if j == 0 then cur else 2 * Doubled(cur, j - 1)
  }

  /**
   * The size the writer's doubling loop stops at: `cur` doubled until it
   * holds `need` bytes. The loop only ends when `cur` is positive or already
   * large enough.
   */
  function GrownSize(cur: nat, need: nat): (r: nat)
    requires cur > 0 || need <= cur
    ensures r >= cur && r >= need
    decreases need - cur
  {
    if need <= cur then cur else GrownSize(cur * 2, need)
  }

  /**
   * The doubling loop grows to `cur * 2^j` for the least `j` that holds `need`
   * bytes; when the data already fits, the size stays as it is.
   */
  lemma GrownSizeIsLeastDoubling(cur: nat, need: nat)
    requires cur > 0 || need <= cur
    ensures need <= cur ==> GrownSize(cur, need) == cur
    ensures exists j: nat :: GrownSize(cur, need) == Doubled(cur, j)
                        && forall i: nat :: i < j ==> Doubled(cur, i) < need
  {
    var j := DoublingsNeeded(cur, need);
  }

  /** The number of doublings the loop performs. */
  lemma {:induction false} DoublingsNeeded(cur: nat, need: nat) returns (j: nat)
    requires cur > 0 || need <= cur
    ensures GrownSize(cur, need) == Doubled(cur, j)
    ensures forall i: nat :: i < j ==> Doubled(cur, i) < need
    decreases need - cur
  {
    if need <= cur {
      j := 0;
    } else {
      var j1 := DoublingsNeeded(cur * 2, need);
      j := j1 + 1;
      DoubledShift(cur, j1);
      forall i: nat | i < j
        ensures Doubled(cur, i) < need
      {
        if i > 0 {
          DoubledShift(cur, i - 1);
        }
      }
    }
  }

  /** Doubling `2 * cur` j times is doubling `cur` j + 1 times. */
  lemma {:induction false} DoubledShift(cur: nat, j: nat)
    ensures Doubled(cur * 2, j) == Doubled(cur, j + 1)
  {
    if j > 0 {
      DoubledShift(cur, j - 1);
    }
  }

  /**
   * A vector of size 0 stays empty however often it is doubled, so the
   * writer's loop never ends for a write that does not fit into it.
   */
  lemma {:induction false} EmptyNeverGrows(j: nat, need: nat)
    requires need > 0
    ensures Doubled(0, j) == 0 < need
  {
    if j > 0 {
      EmptyNeverGrows(j - 1, need);
    }
  }

  /**
   * The writer's buffer after writing `src` at `pos`: grown by doubling and
   * padded with zeros, then `src` copied over bytes `pos .. pos + |src|`.
   */
  function WriteAt(buf: seq<byte>, pos: nat, src: seq<byte>): (r: seq<byte>)
    requires |buf| > 0 || pos + |src| <= |buf|
    ensures |r| == GrownSize(|buf|, pos + |src|)
    ensures |r| >= |buf| && |r| >= pos + |src|
    ensures r[pos..pos + |src|] == src
    ensures forall i :: 0 <= i < |buf| && !(pos <= i < pos + |src|) ==> r[i] == buf[i]
    ensures forall i :: |buf| <= i < |r| && !(pos <= i < pos + |src|) ==> r[i] == 0
  {
    var grown := buf + Zeros(GrownSize(|buf|, pos + |src|) - |buf|);
    grown[..pos] + src + grown[pos + |src|..]
  }

  // ---------------------------------------------------------------- the read bounds check

  /** 2^64: one more than the largest `size_t`. */
  const SizeT: nat := 0x1_0000_0000_0000_0000

  /**
   * The bounds check of `read` as written: `pos_ + size` is computed in
   * `size_t`, so it wraps around past 2^64 - 1.
   */
  function ReadFitsAsWritten(pos: nat, size: nat, len: nat): bool
    requires pos < SizeT && size < SizeT
  {
    (pos + size) % SizeT <= len
  }

  /**
   * After `seekg` to 2^64 - 1, a read of two bytes from a one-byte vector
   * passes the check as written, although it starts past the end.
   */
  lemma WrappedCheckAdmitsOverread()
    ensures ReadFitsAsWritten(SizeT - 1, 2, 1) && !ReadFits(SizeT - 1, 2, 1)
  {
  }

  /**
   * The check as intended: it passes exactly when the cursor is inside a
   * vector of `len` bytes and at least `size` bytes follow it, so every byte
   * `memcpy` reads exists. Whenever `pos_ + size` does not wrap around, it
   * agrees with the check as written.
   */
  function ReadFits(pos: nat, size: nat, len: nat): (r: bool)
    ensures r <==> pos <= len && size <= len - pos
    ensures pos < SizeT && size < SizeT && pos + size < SizeT ==> (r <==> ReadFitsAsWritten(pos, size, len))
  {
    pos + size <= len
  }

  // ---------------------------------------------------------------- objects

  /** The failure flag both streams of a `MemoryIoStream` share. */
  class MemoryIoBase {
    var fail: bool

    constructor()
      ensures !fail
    {
      fail := false;
    }

    /** `fail()` */
    method Fail() returns (f: bool)
      ensures f == fail
    {
      f := fail;
    }
  }

  /** A `std::vector<uint8_t>`: an object other streams can point at. */
  class ByteVector {
    var data: seq<byte>

    /** `std::vector<uint8_t>(size)`: `size` value-initialised bytes. */
    constructor(size: nat)
      ensures data == Zeros(size)
    {
      data := Zeros(size);
    }
  }

  /** `MemoryInputStream`: reads from a vector it points at. */
  class MemoryInputStream {
    const base: MemoryIoBase
    const inBuf: ByteVector
    var pos: nat

    /** `MemoryInputStream(buf)`, with its own failure flag. */
    constructor(buf: ByteVector)
      ensures fresh(base) && !base.fail && inBuf == buf && pos == 0
    {
      base := new MemoryIoBase();
      inBuf := buf;
      pos := 0;
    }

    /** The same, as a base of a stream whose failure flag is `base`. */
    constructor Shared(base: MemoryIoBase, buf: ByteVector)
      ensures this.base == base && inBuf == buf && pos == 0
    {
      this.base := base;
      inBuf := buf;
      pos := 0;
    }

    /**
     * `read(buf, size)`: when `size` bytes remain after the cursor they are
     * copied into `dst` and the cursor moves past them; otherwise the failure
     * flag is set and neither the cursor nor `dst` changes. A read that fits
     * succeeds even after an earlier failure.
     */
    method Read(dst: array<byte>, size: nat)
      requires size <= dst.Length
      modifies this, base, dst
      ensures !ReadFits(old(pos), size, |inBuf.data|) ==> base.fail && pos == old(pos) && dst[..] == old(dst[..])
      ensures ReadFits(old(pos), size, |inBuf.data|) ==>
                base.fail == old(base.fail) && pos == old(pos) + size
                && dst[..size] == inBuf.data[old(pos)..old(pos) + size]
                && dst[size..] == old(dst[size..])
      ensures inBuf.data == old(inBuf.data)
    {
      if !ReadFits(pos, size, |inBuf.data|) {
        base.fail := true;
        return;
      }
      forall i | 0 <= i < size {
        dst[i] := inBuf.data[pos + i];
      }
      pos := pos + size;
    }

    /** `tellg()` */
    method TellG() returns (p: nat)
      ensures p == pos
    {
      p := pos;
    }

    /** `seekg(pos)`: any position, even past the end of the data. */
    method SeekG(p: nat)
      modifies this
      ensures pos == p
    {
      pos := p;
    }
  }

  /** `MemoryOutputStream`: writes into a vector it owns, growing it as needed. */
  class MemoryOutputStream {
    const base: MemoryIoBase
    const outBuf: ByteVector
    var pos: nat

    /** `MemoryOutputStream(size)`: a vector of `size` zero bytes, with its own failure flag. */
    constructor(size: nat)
      ensures fresh(base) && !base.fail && fresh(outBuf) && outBuf.data == Zeros(size) && pos == 0
    {
      base := new MemoryIoBase();
      outBuf := new ByteVector(size);
      pos := 0;
    }

    /** The same, as a base of a stream whose failure flag is `base`. */
    constructor Shared(base: MemoryIoBase, size: nat)
      ensures this.base == base && fresh(outBuf) && outBuf.data == Zeros(size) && pos == 0
    {
      this.base := base;
      outBuf := new ByteVector(size);
      pos := 0;
    }

    /**
     * `write(buf, size)`: doubles the capacity until the bytes fit after the
     * cursor, zero-fills the growth, copies the bytes in at the cursor and
     * moves the cursor past them. The doubling loop only ends when the vector
     * is not empty or the bytes already fit.
     */
    method Write(src: seq<byte>)
      requires |outBuf.data| > 0 || pos + |src| <= |outBuf.data|
      modifies this, outBuf
      ensures outBuf.data == WriteAt(old(outBuf.data), old(pos), src)
      ensures pos == old(pos) + |src|
    {
      var need := pos + |src|;
      var curSize := |outBuf.data|;
      while need > curSize
        invariant curSize >= |outBuf.data| && (curSize > 0 || need <= curSize)
        invariant GrownSize(curSize, need) == GrownSize(|outBuf.data|, need)
        decreases need - curSize
      {
        curSize := curSize * 2;
      }
      if curSize != |outBuf.data| {
        outBuf.data := outBuf.data + Zeros(curSize - |outBuf.data|);
      }
      outBuf.data := outBuf.data[..pos] + src + outBuf.data[pos + |src|..];
      pos := pos + |src|;
    }

    /** `tellp()` */
    method TellP() returns (p: nat)
      ensures p == pos
    {
      p := pos;
    }

    /** `seekp(pos)`: any position; a later write past the end zero-fills the gap. */
    method SeekP(p: nat)
      modifies this
      ensures pos == p
    {
      pos := p;
    }

    /** `data()`: the bytes of the vector, up to its capacity, not just up to the cursor. */
    method Data() returns (d: seq<byte>)
      ensures d == outBuf.data
    {
      d := outBuf.data;
    }
  }

  /**
   * `MemoryIoStream`: a writer and a reader whose input vector is the
   * writer's output vector, sharing one failure flag.
   */
  class MemoryIoStream {
    const base: MemoryIoBase
    const input: MemoryInputStream
    const output: MemoryOutputStream

    ghost predicate Valid()
      reads this, input, output
    {
      input.base == base && output.base == base && input.inBuf == output.outBuf
    }

    /** `MemoryIoStream(size)` */
    constructor(size: nat)
      ensures Valid() && fresh(base) && fresh(input) && fresh(output) && fresh(output.outBuf)
      ensures !base.fail && output.outBuf.data == Zeros(size) && input.pos == 0 && output.pos == 0
    {
      var b := new MemoryIoBase();
      var o := new MemoryOutputStream.Shared(b, size);
      base := b;
      output := o;
      input := new MemoryInputStream.Shared(b, o.outBuf);
    }
  }

  // ---------------------------------------------------------------- using a stream

  /**
   * Bytes written to a fresh `MemoryIoStream` of positive size are read back
   * unchanged: the reader sees the writer's vector, however much it grew.
   */
  method WriteThenRead(size: nat, src: seq<byte>) returns (got: array<byte>, failed: bool)
    requires size > 0
    ensures !failed && got[..] == src
  {
    var s := new MemoryIoStream(size);
    s.output.Write(src);
    got := new byte[|src|];
    s.input.Read(got, |src|);
    failed := s.base.Fail();
  }

  /**
   * Reads are bounded by the vector's size, not by what was written: a fresh
   * stream of `size` bytes reads back `size` zero bytes without any write,
   * one byte more sets the failure flag, and the flag stays set after a
   * later read that fits.
   */
  method ReadUpToCapacity(size: nat) returns (got: seq<byte>, failedAfterOverread: bool, failedAtEnd: bool)
    ensures got == Zeros(size)
    ensures failedAfterOverread && failedAtEnd
  {
    var s := new MemoryIoStream(size);
    var dst := new byte[size + 1](_ => 1);
    s.input.Read(dst, size + 1);
    failedAfterOverread := s.base.Fail();
    s.input.Read(dst, size);
    got := dst[..size];
    failedAtEnd := s.base.Fail();
  }

  /**
   * The reader and the writer of a `MemoryIoStream` keep separate cursors:
   * writing moves only the write cursor, seeking the reader moves only the
   * read cursor.
   */
  method IndependentCursors(size: nat, src: seq<byte>, p: nat) returns (readPos: nat, writePos: nat)
    requires size > 0
    ensures readPos == p && writePos == |src|
  {
    var s := new MemoryIoStream(size);
    s.output.Write(src);
    s.input.SeekG(p);
    readPos := s.input.TellG();
    writePos := s.output.TellP();
  }
}
