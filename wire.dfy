/**
 * Bytes and the 4-byte element count that prefixes every container on the wire.
 *
 * The source writes the count as the raw bytes of an `unsigned int`, in host byte
 * order; this model fixes little-endian order. The count is the container's
 * `size()` truncated to 32 bits.
 */
module Wire {
  import opened Wrappers

  newtype byte = b: int | 0 <= b < 256

  /** 2^32: one more than the largest `unsigned int`. */
  const U32: nat := 0x1_0000_0000

  /** The C++ conversion `unsigned int size = val.size();`. */
  function Truncate32(n: nat): (c: nat)
    ensures c < U32
    ensures n < U32 ==> c == n
  {
    n % U32
  }

  /** The bytes that `os.write((const char*)&size, sizeof(size))` produces. */
  function CountBytes(n: nat): (r: seq<byte>)
    ensures |r| == 4
  {
    var c := Truncate32(n);
    [(c % 256) as byte, (c / 256 % 256) as byte,
     (c / 0x1_0000 % 256) as byte, (c / 0x100_0000) as byte]
  }

  /**
   * `is.read((char*)&size, sizeof(unsigned int))`: the count and the rest of the
   * input, or None when fewer than four bytes remain.
   */
  function ReadCount(b: seq<byte>): (r: Option<(nat, seq<byte>)>)
    ensures r.None? <==> |b| < 4
    ensures r.Some? ==> r.value.0 < U32 && r.value.1 == b[4..]
  {
    if |b| < 4 then None
    else Some(((b[0] as int + 256 * (b[1] as int + 256 * (b[2] as int + 256 * b[3] as int))) as nat, b[4..]))
  }

  /** Reading back a written count yields the truncated size and leaves the rest. */
  lemma CountRoundTrip(n: nat, rest: seq<byte>)
    ensures ReadCount(CountBytes(n) + rest) == Some((Truncate32(n), rest))
  {
    var c := Truncate32(n);
    var c1 := c / 256;
    var c2 := c1 / 256;
    assert c / 0x1_0000 == c2;
    assert c / 0x100_0000 == c2 / 256;
    assert c2 == c2 % 256 + 256 * (c2 / 256);
    assert c1 == c1 % 256 + 256 * c2;
    assert c == c % 256 + 256 * c1;
    var b := CountBytes(n) + rest;
    assert b[4..] == rest;
    assert b[0] as int + 256 * (b[1] as int + 256 * (b[2] as int + 256 * b[3] as int)) == c;
  }

  /** Input after the count is left for the next reads: appending to it changes only the rest. */
  lemma CountExtends(b: seq<byte>, x: seq<byte>)
    requires |b| >= 4
    ensures ReadCount(b + x) == Some((ReadCount(b).value.0, ReadCount(b).value.1 + x))
  {
    assert (b + x)[4..] == b[4..] + x;
  }

  /** `is.read(buf, w)`: w raw bytes, or None when the input is shorter. */
  function ReadRaw(w: nat, b: seq<byte>): (r: Option<(seq<byte>, seq<byte>)>)
    ensures r.None? <==> |b| < w
    ensures r.Some? ==> |r.value.0| == w && r.value.0 + r.value.1 == b
  {
    if |b| < w then None else Some((b[..w], b[w..]))
  }

  /** `n` zero bytes: what `std::vector<uint8_t>` value-initialises on growth. */
  function Zeros(n: nat): (r: seq<byte>)
    ensures |r| == n && forall i :: 0 <= i < n ==> r[i] == 0
  {
    seq(n, _ => 0)
  }
}
