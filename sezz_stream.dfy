/**
 * The codec as the source runs it: `Serialize` appends to an output stream
 * and walks containers with a `for` loop, `Deserialize<T>` reads from an
 * input stream and fills the result in a counted loop. An output stream is
 * the sequence of bytes written to it so far; an input stream is its bytes
 * and a read cursor. Each method is proved against the wire rules of module
 * Sezz: what `Serialize` appends is `Encode`, and what `Deserialize` returns
 * is `Decode` of the unread input, with the cursor after the consumed bytes.
 */
module SezzStream {
  import opened Wrappers
  import opened Wire
  import opened Sezz
  import opened SezzProperties

  /** The encodings of the first i + 1 elements: those of the first i, then element i's. */
  lemma EncodeAllSnoc(e: Shape, es: seq<Value>, i: nat)
    requires forall j :: 0 <= j < |es| ==> HasShape(es[j], e)
    requires i < |es|
    ensures EncodeAll(e, es[..i + 1]) == EncodeAll(e, es[..i]) + Encode(e, es[i])
  {
    assert es[..i + 1] == es[..i] + [es[i]];
    EncodeAllAppend(e, es[..i], [es[i]]);
    assert EncodeAll(e, [es[i]]) == Encode(e, es[i]) by {
      assert [es[i]][1..] == [];
    }
  }

  /**
   * `Serialize(os, val)`: appends the encoding of `v` to what `os` holds.
   * Scalars, strings and vectors of trivially copyable elements are written
   * with one `write` of their storage; other containers write the count and
   * then serialize their elements one after the other.
   */
  method Serialize(s: Shape, v: Value, os: seq<byte>) returns (out: seq<byte>)
    requires HasShape(v, s)
    ensures out == os + Encode(s, v)
    decreases Size(s), 1
  {
    match s
    case Scalar(_) =>
      out := os + v.bytes;
    case Pair(a, b) =>
      out := Serialize(a, v.first, os);
      out := Serialize(b, v.second, out);
    case Str =>
      var size := Truncate32(|v.chars|);
      out := os + CountBytes(|v.chars|);
      out := out + v.chars[..size];
    case Vector(e) =>
      out := SerializeVector(e, v, os);
    case Map(k, w) =>
      out := SerializeMap(k, w, v, os);
  }

  /** The two container overloads, chosen by whether the element type is trivially copyable. */
  method SerializeVector(e: Shape, v: Value, os: seq<byte>) returns (out: seq<byte>)
    requires HasShape(v, Vector(e))
    ensures out == os + Encode(Vector(e), v)
    decreases Size(Vector(e)), 0
  {
    if TriviallyCopyable(e) {
      out := SerializeBulk(e.width, v, os);
    } else {
      out := os + CountBytes(|v.elems|);
      out := SerializeEach(e, v.elems, out);
    }
  }

  /** A container of trivially copyable elements: the count, then one `write` of the stored elements. */
  method SerializeBulk(k: nat, v: Value, os: seq<byte>) returns (out: seq<byte>)
    requires HasShape(v, Vector(Scalar(k)))
    ensures out == os + Encode(Vector(Scalar(k)), v)
  {
    var size := Truncate32(|v.elems|);
    var stored := v.elems[..size];
    assert forall i :: 0 <= i < |stored| ==> stored[i].ScalarV?;
    out := os + CountBytes(|v.elems|);
    out := out + RawBytes(stored);
  }

  /** An unordered_map's value_type is a pair, which is not trivially copyable: element by element. */
  method SerializeMap(k: Shape, w: Shape, v: Value, os: seq<byte>) returns (out: seq<byte>)
    requires HasShape(v, Map(k, w))
    ensures out == os + Encode(Map(k, w), v)
    decreases Size(Map(k, w)), 0
  {
    out := os + CountBytes(|v.elems|);
    out := SerializeEach(Pair(k, w), v.elems, out);
  }

  /** `for (auto& v : val) { Serialize(os, v); }` */
  method SerializeEach(e: Shape, es: seq<Value>, os: seq<byte>) returns (out: seq<byte>)
    requires forall i :: 0 <= i < |es| ==> HasShape(es[i], e)
    ensures out == os + EncodeAll(e, es)
    decreases Size(e), 2
  {
    out := os;
    for i := 0 to |es|
      invariant out == os + EncodeAll(e, es[..i])
    {
      EncodeAllSnoc(e, es, i);
      out := Serialize(e, es[i], out);
    }
    assert es[..|es|] == es;
  }

  /**
   * `Deserialize<T>(is)` on the input `input` read from `pos`: the value and
   * the cursor after it, or None when the input runs out before the value
   * is complete.
   */
  method Deserialize(s: Shape, input: seq<byte>, pos: nat) returns (r: Option<(Value, nat)>)
    requires Decodable(s) && pos <= |input|
    ensures r.None? <==> Decode(s, input[pos..]).None?
    ensures r.Some? ==> pos <= r.value.1 <= |input| && Decode(s, input[pos..]) == Some((r.value.0, input[r.value.1..]))
    decreases Size(s), 0
  {
    match s
    case Scalar(width) =>
      if |input| - pos < width {
        return None;
      }
      assert input[pos..][..width] == input[pos..pos + width] && input[pos..][width..] == input[pos + width..];
      r := Some((ScalarV(input[pos..pos + width]), pos + width));
    case Pair(a, c) =>
      var first := Deserialize(a, input, pos);
      if first.None? {
        return None;
      }
      var second := Deserialize(c, input, first.value.1);
      if second.None? {
        return None;
      }
      r := Some((PairV(first.value.0, second.value.0), second.value.1));
    case Str =>
      if |input| - pos < 4 {
        return None;
      }
      var size := ReadCount(input[pos..]).value.0;
      assert input[pos..][4..] == input[pos + 4..];
      var res := DeserializeChars(size, input, pos + 4);
      if res.None? {
        return None;
      }
      r := Some((StrV(res.value.0), res.value.1));
    case Map(k, w) =>
      if |input| - pos < 4 {
        return None;
      }
      var size := ReadCount(input[pos..]).value.0;
      assert input[pos..][4..] == input[pos + 4..];
      var res := DeserializeEntries(k, w, size, input, pos + 4);
      if res.None? {
        return None;
      }
      r := Some((SeqV(res.value.0), res.value.1));
  }

  /** The string decoder's loop: `size` characters, the i-th inserted at index i. */
  method DeserializeChars(size: nat, input: seq<byte>, pos: nat) returns (r: Option<(seq<byte>, nat)>)
    requires pos <= |input|
    ensures r.None? <==> ReadChars(size, [], input[pos..]).None?
    ensures r.Some? ==> pos <= r.value.1 <= |input| && ReadChars(size, [], input[pos..]) == Some((r.value.0, input[r.value.1..]))
    decreases Size(Scalar(1)), 1
  {
    var res: seq<byte> := [];
    var p := pos;
    var i := 0;
    while i < size
      invariant pos <= p <= |input| && i <= size && |res| == i
      invariant ReadChars(size - i, res, input[p..]) == ReadChars(size, [], input[pos..])
    {
      var tmp := Deserialize(Scalar(1), input, p);
      if tmp.None? {
        return None;
      }
      assert res[..i] + tmp.value.0.bytes + res[i..] == res + tmp.value.0.bytes;
      res := res[..i] + tmp.value.0.bytes + res[i..];
      p := tmp.value.1;
      i := i + 1;
    }
    r := Some((res, p));
  }

  /** The unordered_map decoder's loop: `size` entries, each passed to `insert`. */
  method DeserializeEntries(k: Shape, w: Shape, size: nat, input: seq<byte>, pos: nat) returns (r: Option<(seq<Value>, nat)>)
    requires Decodable(k) && Decodable(w) && pos <= |input|
    ensures r.None? <==> ReadEntries(k, w, size, [], input[pos..]).None?
    ensures r.Some? ==> pos <= r.value.1 <= |input| && ReadEntries(k, w, size, [], input[pos..]) == Some((r.value.0, input[r.value.1..]))
    decreases Size(Pair(k, w)), 1
  {
    var res: seq<Value> := [];
    var p := pos;
    var i := 0;
    ghost var target := ReadEntries(k, w, size, [], input[pos..]);
    while i < size
      invariant pos <= p <= |input| && i <= size
      invariant ReadEntries(k, w, size - i, res, input[p..]) == target
    {
      var tmp := Deserialize(Pair(k, w), input, p);
      if tmp.None? {
        ReadEntriesStops(k, w, size - i, res, input[p..]);
        return None;
      }
      ghost var next := InsertEntry(res, tmp.value.0);
      assert ReadEntries(k, w, size - i, res, input[p..]) == ReadEntries(k, w, size - (i + 1), next, input[tmp.value.1..]) by {
        ReadEntriesStep(k, w, size - i, res, input[p..], tmp.value.0, input[tmp.value.1..]);
      }
      res := InsertEntry(res, tmp.value.0);
      p := tmp.value.1;
      i := i + 1;
    }
    assert ReadEntries(k, w, 0, res, input[p..]) == Some((res, input[p..]));
    r := Some((res, p));
  }
}
