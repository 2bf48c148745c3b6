/**
 * The type-directed binary codec: the `Serialize` overloads and `Deserialize<T>`.
 *
 * A C++ type is described by a `Shape`; the traits the source tests at compile
 * time (trivially copyable, iterable, pair, string, unordered_map) are predicates
 * on shapes, and `Encode`/`Decode` take the same branches the overload set and
 * the `if constexpr` chain take. Streams are byte sequences: the encoder's output
 * is what it appends, and the decoder returns the value with the unread rest of
 * the input, or None when the input runs out (the stream's failure state).
 */
module Sezz {
  import opened Wrappers
  import opened Wire

  /** The C++ types the codec handles. */
  datatype Shape =
    | Scalar(width: nat)                 // a trivially copyable type of `width` bytes
    | Pair(first: Shape, second: Shape)  // std::pair<T1, T2>
    | Vector(elem: Shape)                // std::vector<T>, or another container with contiguous `data()` storage
    | Str                                // std::basic_string<char>; strings of wider characters are not modelled
    | Map(key: Shape, val: Shape)        // std::unordered_map<K, V>

  /**
   * Values of those types. An unordered_map is the sequence of its entries
   * (pairs) in iteration order; a decoded one lists them in insertion order,
   * standing for whatever order the hash table iterates them in.
   */
  datatype Value =
    | ScalarV(bytes: seq<byte>)
    | PairV(first: Value, second: Value)
    | SeqV(elems: seq<Value>)
    | StrV(chars: seq<byte>)

  /** A measure that decreases on every recursive step of the codec. */
  function Size(s: Shape): nat
  {
    match s
    case Scalar(_) => 1
    case Str => 2
    case Pair(a, b) => 1 + Size(a) + Size(b)
    case Vector(e) => 1 + Size(e)
    case Map(k, w) => 2 + Size(k) + Size(w)
  }

  /**
   * `std::is_trivially_copyable_v` for the shapes modelled. Only scalars are:
   * vector, string and unordered_map own heap storage, and the model assumes
   * that no std::pair is trivially copyable, as in standard libraries whose
   * pair declares its own copy assignment. The C++ standard does not promise
   * this for every library. (std::array is trivially copyable but has no
   * `resize`, so it is not a `Vector` here.)
   */
  predicate TriviallyCopyable(s: Shape)
  {
    s.Scalar?
  }

  /** Two map entries with the same key. */
  predicate SameKey(a: Value, b: Value)
  {
    a.PairV? && b.PairV? && a.first == b.first
  }

  /** No two entries share a key, as in every std::unordered_map. */
  predicate DistinctKeys(es: seq<Value>)
  {
    forall i, j :: 0 <= i < j < |es| ==> !SameKey(es[i], es[j])
  }

  /** `v` is a value of the C++ type `s`. */
  predicate HasShape(v: Value, s: Shape)
    decreases Size(s)
  {
    match s
    case Scalar(w) => v.ScalarV? && |v.bytes| == w
    case Pair(a, b) => v.PairV? && HasShape(v.first, a) && HasShape(v.second, b)
    case Vector(e) => v.SeqV? && forall i :: 0 <= i < |v.elems| ==> HasShape(v.elems[i], e)
    case Str => v.StrV?
    case Map(k, w) =>
      v.SeqV? && (forall i :: 0 <= i < |v.elems| ==> HasShape(v.elems[i], Pair(k, w))) && DistinctKeys(v.elems)
  }

  /**
   * Every container in `v` has fewer than 2^32 elements, so that its
   * `unsigned int` count is exact.
   */
  predicate CountsFit(s: Shape, v: Value)
    requires HasShape(v, s)
    decreases Size(s)
  {
    match s
    case Scalar(_) => true
    case Pair(a, b) => CountsFit(a, v.first) && CountsFit(b, v.second)
    case Vector(e) => |v.elems| < U32 && forall i :: 0 <= i < |v.elems| ==> CountsFit(e, v.elems[i])
    case Str => |v.chars| < U32
    case Map(k, w) => |v.elems| < U32 && forall i :: 0 <= i < |v.elems| ==> CountsFit(Pair(k, w), v.elems[i])
  }

  /**
   * The types `Deserialize<T>` instantiates without reaching a `static_assert`:
   * a container that is not trivially copyable is decoded element by element,
   * which is implemented only for strings and unordered_maps, so a std::vector
   * is rejected at build time.
   */
  predicate Decodable(s: Shape)
  {
    match s
    case Scalar(_) => true
    case Pair(a, b) => Decodable(a) && Decodable(b)
    case Vector(_) => false
    case Str => true
    case Map(k, w) => Decodable(k) && Decodable(w)
  }

  // ---------------------------------------------------------------- encoding

  /** Every element is a `k`-byte trivially copyable value. */
  predicate AllScalars(es: seq<Value>, k: nat)
  {
    forall i :: 0 <= i < |es| ==> es[i].ScalarV? && |es[i].bytes| == k
  }

  /** The raw storage of a vector of trivially copyable elements, as `val.data()` exposes it. */
  function RawBytes(es: seq<Value>): seq<byte>
    requires forall i :: 0 <= i < |es| ==> es[i].ScalarV?
  {
    if es == [] then [] else es[0].bytes + RawBytes(es[1..])
  }

  /** `for (auto& v : val) { Serialize(os, v); }`: the elements' encodings in iteration order. */
  function EncodeAll(e: Shape, es: seq<Value>): seq<byte>
    requires forall i :: 0 <= i < |es| ==> HasShape(es[i], e)
    decreases Size(e), |es| + 1
  {
    if es == [] then [] else Encode(e, es[0]) + EncodeAll(e, es[1..])
  }

  /** The bytes `Serialize(os, v)` writes for a value of type `s`. */
  function Encode(s: Shape, v: Value): seq<byte>
    requires HasShape(v, s)
    decreases Size(s), 0
  {
    match s
    // a trivially copyable value: its raw bytes
    case Scalar(_) => v.bytes
    // a pair: first, then second, nothing between
    case Pair(a, b) => Encode(a, v.first) + Encode(b, v.second)
    // a string has trivially copyable elements (char): the count, then `size` raw chars
    case Str => CountBytes(|v.chars|) + v.chars[..Truncate32(|v.chars|)]
    case Vector(e) =>
      if TriviallyCopyable(e) then
        // the count, then `size * sizeof(value_type)` raw bytes of storage
        var stored := v.elems[..Truncate32(|v.elems|)];
        assert forall i :: 0 <= i < |stored| ==> HasShape(stored[i], e);
        CountBytes(|v.elems|) + RawBytes(stored)
      else
        // the count, then every element, each encoded by its own rule
        CountBytes(|v.elems|) + EncodeAll(e, v.elems)
    // value_type is std::pair<const K, V>, not trivially copyable: element by element
    case Map(k, w) => CountBytes(|v.elems|) + EncodeAll(Pair(k, w), v.elems)
  }

  // ---------------------------------------------------------------- decoding

  /**
   * `res.insert(tmp)` on an unordered_map: ignored when the key is already
   * present. Entries already there are kept as they are, at most one entry is
   * added, and afterwards some entry carries the inserted pair's key.
   */
  function InsertEntry(acc: seq<Value>, p: Value): (r: seq<Value>)
    ensures acc <= r && |r| <= |acc| + 1
    ensures p.PairV? ==> exists i :: 0 <= i < |r| && SameKey(r[i], p)
  {
    if exists i :: 0 <= i < |acc| && SameKey(acc[i], p) then acc
    else
      assert (acc + [p])[|acc|] == p;
      acc + [p]
  }

  /**
   * The counted loop of the string decoder: `n` more characters, each read by
   * `Deserialize<char>` and inserted at index `|acc|`.
   */
  function ReadChars(n: nat, acc: seq<byte>, b: seq<byte>): (r: Option<(seq<byte>, seq<byte>)>)
    ensures r.Some? ==> |r.value.0| == |acc| + n && r.value.0[..|acc|] == acc && |r.value.1| <= |b|
    decreases Size(Scalar(1)), 1, n
  {
    if n == 0 then Some((acc, b))
    else
      match Decode(Scalar(1), b)
      case None => None
      case Some((c, b1)) => ReadChars(n - 1, acc + c.bytes, b1)
  }

  /** The counted loop of the unordered_map decoder: `n` more entries, each inserted. */
  function ReadEntries(k: Shape, w: Shape, n: nat, acc: seq<Value>, b: seq<byte>): (r: Option<(seq<Value>, seq<byte>)>)
    requires Decodable(k) && Decodable(w)
    ensures r.Some? ==> |r.value.1| <= |b|
    decreases Size(Pair(k, w)), 1, n
  {
    if n == 0 then Some((acc, b))
    else
      match Decode(Pair(k, w), b)
      case None => None
      case Some((p, b1)) => ReadEntries(k, w, n - 1, InsertEntry(acc, p), b1)
  }

  /**
   * `Deserialize<T>(is)`: the decoded value and the unread rest of the input, or
   * None when the input ends early. What is left is never longer than the input,
   * and a scalar consumes exactly its width.
   */
  function Decode(s: Shape, b: seq<byte>): (r: Option<(Value, seq<byte>)>)
    requires Decodable(s)
    ensures r.Some? ==> |r.value.1| <= |b|
    ensures s.Scalar? ==> (r.Some? <==> s.width <= |b|)
    ensures s.Scalar? && r.Some? ==> r.value.0.ScalarV? && |b| == s.width + |r.value.1|
    decreases Size(s), 0, 0
  {
    match s
    // a pair: first, then second, from the same input
    case Pair(a, c) =>
      (match Decode(a, b)
       case None => None
       case Some((x, b1)) =>
         (match Decode(c, b1)
          case None => None
          case Some((y, b2)) => Some((PairV(x, y), b2))))
    // a string is iterable and not trivially copyable: count, then one char at a time
    case Str =>
      (match ReadCount(b)
       case None => None
       case Some((n, b1)) =>
         (match ReadChars(n, [], b1)
          case None => None
          case Some((cs, b2)) => Some((StrV(cs), b2))))
    // an unordered_map: count, then one entry at a time
    case Map(k, w) =>
      (match ReadCount(b)
       case None => None
       case Some((n, b1)) =>
         (match ReadEntries(k, w, n, [], b1)
          case None => None
          case Some((es, b2)) => Some((SeqV(es), b2))))
    // a trivially copyable value: `sizeof(T)` raw bytes
    case Scalar(width) =>
      (match ReadRaw(width, b)
       case None => None
       case Some((raw, b1)) => Some((ScalarV(raw), b1)))
  }

  /**
   * The bulk reading rule of the decoder's memcopyable-container branch: the
   * count, then `count * elemWidth` raw bytes cut into elements.
   */
  function ReadBulk(k: nat, b: seq<byte>): (r: Option<(seq<Value>, seq<byte>)>)
    ensures r.Some? ==> (forall i :: 0 <= i < |r.value.0| ==> HasShape(r.value.0[i], Scalar(k)))
    ensures r.Some? ==> |r.value.0| < U32 && |b| == 4 + |r.value.0| * k + |r.value.1|
  {
    match ReadCount(b)
    case None => None
    case Some((n, b1)) =>
      if |b1| < n * k then None
      else Some((Chunks(k, n, b1[..n * k]), b1[n * k..]))
  }

  /** `n` consecutive `k`-byte elements stored in `raw`. */
  function Chunks(k: nat, n: nat, raw: seq<byte>): (r: seq<Value>)
    requires |raw| == n * k
    ensures |r| == n && forall i :: 0 <= i < n ==> HasShape(r[i], Scalar(k))
  {
    if n == 0 then [] else [ScalarV(raw[..k])] + Chunks(k, n - 1, raw[k..])
  }
}
