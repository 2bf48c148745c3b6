/**
 * What the wire rules of the codec guarantee: the byte layout of each shape,
 * the round trip Decode(Encode(v)) for every type the decoder accepts, what
 * the 32-bit count truncation does to large containers, the insertion rule
 * of unordered_map, and failure on truncated input.
 */
module SezzProperties {
  import opened Wrappers
  import opened Wire
  import opened Sezz

  // ------------------------------------------------------------ byte layout

  /** A trivially copyable value is written as its `width` raw bytes, with no prefix. */
  lemma ScalarLayout(width: nat, v: Value)
    requires HasShape(v, Scalar(width))
    ensures Encode(Scalar(width), v) == v.bytes && |Encode(Scalar(width), v)| == width
  {
  }

  /**
   * A string and every container start with their 4-byte count, truncated to
   * 32 bits; a string then holds exactly that many characters.
   */
  lemma CountPrefix(s: Shape, v: Value)
    requires HasShape(v, s) && (s.Str? || s.Vector? || s.Map?)
    ensures |Encode(s, v)| >= 4 && Encode(s, v)[..4] == CountBytes(if s.Str? then |v.chars| else |v.elems|)
    ensures s.Str? ==> |Encode(s, v)| == 4 + Truncate32(|v.chars|)
  {
  }

  /** A pair is written as its first component's encoding, then its second's, with nothing between. */
  lemma PairLayout(a: Shape, b: Shape, x: Value, y: Value)
    requires HasShape(x, a) && HasShape(y, b)
    ensures Encode(Pair(a, b), PairV(x, y)) == Encode(a, x) + Encode(b, y)
  {
  }

  /** Encoding a sequence of elements distributes over concatenation. */
  lemma {:induction false} EncodeAllAppend(e: Shape, a: seq<Value>, b: seq<Value>)
    requires forall i :: 0 <= i < |a| ==> HasShape(a[i], e)
    requires forall i :: 0 <= i < |b| ==> HasShape(b[i], e)
    ensures EncodeAll(e, a + b) == EncodeAll(e, a) + EncodeAll(e, b)
    decreases |a|
  {
    if a == [] {
      assert a + b == b;
    } else {
      assert (a + b)[0] == a[0] && (a + b)[1..] == a[1..] + b;
      assert EncodeAll(e, a + b) == Encode(e, a[0]) + EncodeAll(e, a[1..] + b);
      EncodeAllAppend(e, a[1..], b);
    }
  }

  /**
   * A container encoded element by element is its count followed by every
   * element's encoding in iteration order: element i comes right after the
   * elements before it, and all elements are written even when the count
   * was truncated.
   */
  lemma ElementwiseLayout(e: Shape, es: seq<Value>, i: nat)
    requires !TriviallyCopyable(e) && HasShape(SeqV(es), Vector(e))
    requires i < |es|
    ensures Encode(Vector(e), SeqV(es))
         == CountBytes(|es|) + EncodeAll(e, es[..i]) + Encode(e, es[i]) + EncodeAll(e, es[i + 1..])
  {
    EncodeAllAt(e, es, i);
  }

  /** Element `i`'s encoding sits between those of the elements before and after it. */
  lemma EncodeAllAt(e: Shape, es: seq<Value>, i: nat)
    requires forall j :: 0 <= j < |es| ==> HasShape(es[j], e)
    requires i < |es|
    ensures EncodeAll(e, es) == EncodeAll(e, es[..i]) + Encode(e, es[i]) + EncodeAll(e, es[i + 1..])
  {
    assert EncodeAll(e, es) == EncodeAll(e, es[..i]) + EncodeAll(e, es[i..]) by {
      assert es == es[..i] + es[i..];
      EncodeAllAppend(e, es[..i], es[i..]);
    }
    assert EncodeAll(e, es[i..]) == Encode(e, es[i]) + EncodeAll(e, es[i + 1..]) by {
      assert es[i..][0] == es[i] && es[i..][1..] == es[i + 1..];
    }
  }

  /** Raw storage of `n` elements of `k` bytes is `n * k` bytes long. */
  lemma {:induction false} RawBytesLength(k: nat, es: seq<Value>)
    requires AllScalars(es, k)
    ensures |RawBytes(es)| == |es| * k
    decreases |es|
  {
    if es != [] {
      RawBytesLength(k, es[1..]);
      assert |es| * k == k + (|es| - 1) * k;
    }
  }

  /**
   * A vector of `k`-byte elements is encoded as a 4-byte count followed by
   * (count mod 2^32) * k raw bytes: the elements past the truncated count are
   * not written.
   */
  lemma BulkVectorLayout(k: nat, es: seq<Value>)
    requires HasShape(SeqV(es), Vector(Scalar(k)))
    ensures Encode(Vector(Scalar(k)), SeqV(es))[..4] == CountBytes(|es|)
    ensures |Encode(Vector(Scalar(k)), SeqV(es))| == 4 + Truncate32(|es|) * k
  {
    var stored := es[..Truncate32(|es|)];
    RawBytesLength(k, stored);
  }

  /** Raw storage of scalars is what the elementwise rule would write for them. */
  lemma {:induction false} RawBytesIsElementwise(k: nat, es: seq<Value>)
    requires AllScalars(es, k)
    ensures RawBytes(es) == EncodeAll(Scalar(k), es)
    decreases |es|
  {
    if es != [] {
      RawBytesIsElementwise(k, es[1..]);
    }
  }

  /**
   * While the count fits in 32 bits, the bulk rule and the elementwise rule
   * produce the same bytes. This is why a string, written in bulk, can be read
   * back one character at a time.
   */
  lemma BulkMatchesElementwise(k: nat, es: seq<Value>)
    requires HasShape(SeqV(es), Vector(Scalar(k))) && |es| < U32
    ensures Encode(Vector(Scalar(k)), SeqV(es)) == CountBytes(|es|) + EncodeAll(Scalar(k), es)
  {
    assert es[..Truncate32(|es|)] == es;
    RawBytesIsElementwise(k, es);
  }

  // ------------------------------------------------------------ round trips

  /** Reading `n` characters takes the first `n` bytes, one by one, in order. */
  lemma {:induction false} CharsRoundTrip(n: nat, acc: seq<byte>, cs: seq<byte>, rest: seq<byte>)
    requires n <= |cs|
    ensures ReadChars(n, acc, cs + rest) == Some((acc + cs[..n], cs[n..] + rest))
    decreases n
  {
    if n > 0 {
      var b := cs + rest;
      assert b[..1] == [cs[0]] && b[1..] == cs[1..] + rest;
      assert Decode(Scalar(1), b) == Some((ScalarV([cs[0]]), cs[1..] + rest));
      assert ReadChars(n, acc, b) == ReadChars(n - 1, acc + [cs[0]], cs[1..] + rest);
      CharsRoundTrip(n - 1, acc + [cs[0]], cs[1..], rest);
      assert acc + [cs[0]] + cs[1..][..n - 1] == acc + cs[..n];
      assert cs[1..][n - 1..] == cs[n..];
    } else {
      assert acc + cs[..0] == acc && cs[0..] == cs;
    }
  }

  /** One turn of the entry loop: decode an entry, insert it, continue with the rest. */
  lemma ReadEntriesStep(k: Shape, w: Shape, n: nat, acc: seq<Value>, b: seq<byte>, p: Value, b1: seq<byte>)
    requires Decodable(k) && Decodable(w) && n > 0
    requires Decode(Pair(k, w), b) == Some((p, b1))
    ensures ReadEntries(k, w, n, acc, b) == ReadEntries(k, w, n - 1, InsertEntry(acc, p), b1)
  {
  }

  /** The entry loop stops with a failure at the first entry that cannot be read. */
  lemma ReadEntriesStops(k: Shape, w: Shape, n: nat, acc: seq<Value>, b: seq<byte>)
    requires Decodable(k) && Decodable(w) && n > 0
    requires Decode(Pair(k, w), b).None?
    ensures ReadEntries(k, w, n, acc, b).None?
  {
  }

  /** With distinct keys, inserting entry `j` after the entries before it appends it. */
  lemma InsertNext(es: seq<Value>, j: nat)
    requires DistinctKeys(es) && j < |es|
    ensures InsertEntry(es[..j], es[j]) == es[..j + 1]
  {
    forall i | 0 <= i < j
      ensures !SameKey(es[..j][i], es[j])
    {
      assert es[..j][i] == es[i];
    }
    assert es[..j] + [es[j]] == es[..j + 1];
  }

  /** Map entries of type `Pair(k, w)` whose counts all fit in 32 bits. */
  predicate EntriesFit(k: Shape, w: Shape, es: seq<Value>)
  {
    forall i :: 0 <= i < |es| ==> HasShape(es[i], Pair(k, w)) && CountsFit(Pair(k, w), es[i])
  }

  /** The encoding of the entries from `j` on is entry `j`'s, then the others'. */
  lemma EncodeEntriesAt(k: Shape, w: Shape, es: seq<Value>, j: nat, rest: seq<byte>)
    requires EntriesFit(k, w, es) && j < |es|
    ensures HasShape(es[j], Pair(k, w)) && CountsFit(Pair(k, w), es[j])
    ensures EntriesFit(k, w, es[j..]) && EntriesFit(k, w, es[j + 1..])
    ensures EncodeAll(Pair(k, w), es[j..]) + rest
         == Encode(Pair(k, w), es[j]) + (EncodeAll(Pair(k, w), es[j + 1..]) + rest)
  {
    assert es[j..][0] == es[j] && es[j..][1..] == es[j + 1..];
  }

  /** One turn of the entry loop over an encoded entry list with distinct keys. */
  lemma EntriesStep(k: Shape, w: Shape, n: nat, es: seq<Value>, j: nat, rest: seq<byte>)
    requires Decodable(k) && Decodable(w)
    requires j < n <= |es| && EntriesFit(k, w, es) && DistinctKeys(es)
    ensures EntriesFit(k, w, es[j..]) && EntriesFit(k, w, es[j + 1..])
    ensures ReadEntries(k, w, n - j, es[..j], EncodeAll(Pair(k, w), es[j..]) + rest)
         == ReadEntries(k, w, n - (j + 1), es[..j + 1], EncodeAll(Pair(k, w), es[j + 1..]) + rest)
    decreases Size(Pair(k, w)), 1, n - j, 0
  {
    var tail := EncodeAll(Pair(k, w), es[j + 1..]) + rest;
    EncodeEntriesAt(k, w, es, j, rest);
    RoundTrip(Pair(k, w), es[j], tail);
    ReadEntriesStep(k, w, n - j, es[..j], EncodeAll(Pair(k, w), es[j..]) + rest, es[j], tail);
    InsertNext(es, j);
  }

  /**
   * Reading the entries of an encoded entry list with distinct keys, from
   * entry `j` up to entry `n`, inserts each in turn after the ones before it
   * and leaves the encodings of the entries from `n` on unread.
   */
  lemma {:induction false} EntriesRoundTrip(k: Shape, w: Shape, n: nat, es: seq<Value>, j: nat, rest: seq<byte>)
    requires Decodable(k) && Decodable(w)
    requires j <= n <= |es| && EntriesFit(k, w, es) && DistinctKeys(es)
    ensures EntriesFit(k, w, es[j..]) && EntriesFit(k, w, es[n..])
    ensures ReadEntries(k, w, n - j, es[..j], EncodeAll(Pair(k, w), es[j..]) + rest)
         == Some((es[..n], EncodeAll(Pair(k, w), es[n..]) + rest))
    decreases Size(Pair(k, w)), 1, n - j, 1
  {
    if j < n {
      EntriesStep(k, w, n, es, j, rest);
      EntriesRoundTrip(k, w, n, es, j + 1, rest);
    }
  }

  /**
   * Decoding what was encoded gives back the value and leaves whatever
   * followed it, for every type `Deserialize` accepts, provided every
   * container count fits in 32 bits.
   */
  lemma {:induction false} RoundTrip(s: Shape, v: Value, rest: seq<byte>)
    requires Decodable(s) && HasShape(v, s) && CountsFit(s, v)
    ensures Decode(s, Encode(s, v) + rest) == Some((v, rest))
    decreases Size(s), 0, 0, 1
  {
    match s
    case Scalar(w) =>
      assert (v.bytes + rest)[..w] == v.bytes && (v.bytes + rest)[w..] == rest;
    case Pair(a, b) =>
      assert Encode(s, v) + rest == Encode(a, v.first) + (Encode(b, v.second) + rest);
      RoundTrip(a, v.first, Encode(b, v.second) + rest);
      RoundTrip(b, v.second, rest);
    case Str =>
      var cs := v.chars;
      assert cs[..Truncate32(|cs|)] == cs;
      assert Encode(s, v) + rest == CountBytes(|cs|) + (cs + rest);
      CountRoundTrip(|cs|, cs + rest);
      CharsRoundTrip(|cs|, [], cs, rest);
      assert [] + cs[..|cs|] == cs && cs[|cs|..] + rest == rest;
    case Map(k, w) =>
      MapCountTruncated(k, w, v, rest);
      assert Truncate32(|v.elems|) == |v.elems|;
      assert v.elems[..|v.elems|] == v.elems && v.elems[|v.elems|..] == [];
      assert EncodeAll(Pair(k, w), v.elems[|v.elems|..]) == [];
      assert v == SeqV(v.elems);
      var c := Truncate32(|v.elems|);
      assert Decode(Map(k, w), Encode(Map(k, w), v) + rest) == Some((SeqV(v.elems[..c]), EncodeAll(Pair(k, w), v.elems[c..]) + rest));
      assert SeqV(v.elems[..c]) == v;
      assert EncodeAll(Pair(k, w), v.elems[c..]) + rest == rest;
  }

  /**
   * The pair rule on its own: when each component decodes from its own
   * encoding, the pair decodes from the two encodings placed back to back.
   */
  lemma PairRoundTrip(a: Shape, b: Shape, x: Value, y: Value, rest: seq<byte>)
    requires Decodable(a) && Decodable(b) && HasShape(x, a) && HasShape(y, b)
    requires Decode(a, Encode(a, x) + (Encode(b, y) + rest)) == Some((x, Encode(b, y) + rest))
    requires Decode(b, Encode(b, y) + rest) == Some((y, rest))
    ensures Decode(Pair(a, b), Encode(Pair(a, b), PairV(x, y)) + rest) == Some((PairV(x, y), rest))
  {
    PairLayout(a, b, x, y);
    ConcatAssoc(Encode(a, x), Encode(b, y), rest);
    DecodePairSteps(a, b, Encode(a, x) + (Encode(b, y) + rest), x, Encode(b, y) + rest, y, rest);
  }

  /** The pair decoder: `first` from the input, then `second` from what is left. */
  lemma DecodePairSteps(a: Shape, c: Shape, b0: seq<byte>, x: Value, b1: seq<byte>, y: Value, b2: seq<byte>)
    requires Decodable(a) && Decodable(c)
    requires Decode(a, b0) == Some((x, b1)) && Decode(c, b1) == Some((y, b2))
    ensures Decode(Pair(a, c), b0) == Some((PairV(x, y), b2))
  {
  }

  lemma ConcatAssoc(p: seq<byte>, q: seq<byte>, r: seq<byte>)
    ensures p + q + r == p + (q + r)
  {
  }

  /**
   * A string longer than 2^32 - 1 characters comes back cut to its length
   * modulo 2^32: the count is truncated and exactly that many characters
   * are written and read.
   */
  lemma StringCountTruncated(cs: seq<byte>, rest: seq<byte>)
    ensures Decode(Str, Encode(Str, StrV(cs)) + rest) == Some((StrV(cs[..Truncate32(|cs|)]), rest))
  {
    var c := Truncate32(|cs|);
    var stored := cs[..c];
    assert Encode(Str, StrV(cs)) + rest == CountBytes(|cs|) + (stored + rest);
    CountRoundTrip(|cs|, stored + rest);
    CharsRoundTrip(c, [], stored, rest);
    assert [] + stored[..c] == stored && stored[c..] + rest == rest;
  }

  /**
   * An unordered_map with 2^32 or more entries: every entry is written after
   * the truncated count, so decoding reads back only the first (size mod 2^32)
   * entries and leaves the encodings of the others unread.
   */
  lemma MapCountTruncated(k: Shape, w: Shape, m: Value, rest: seq<byte>)
    requires Decodable(k) && Decodable(w) && HasShape(m, Map(k, w))
    requires forall i :: 0 <= i < |m.elems| ==> CountsFit(Pair(k, w), m.elems[i])
    ensures var c := Truncate32(|m.elems|);
      Decode(Map(k, w), Encode(Map(k, w), m) + rest)
        == Some((SeqV(m.elems[..c]), EncodeAll(Pair(k, w), m.elems[c..]) + rest))
    decreases Size(Map(k, w)), 0, 0, 0
  {
    var es := m.elems;
    var c := Truncate32(|es|);
    MapCountRead(k, w, m, rest);
    MapEntriesRead(k, w, es, c, rest);
    DecodeMapSteps(k, w, Encode(Map(k, w), m) + rest, c, EncodeAll(Pair(k, w), es) + rest,
                   es[..c], EncodeAll(Pair(k, w), es[c..]) + rest);
  }

  /** An encoded map starts with its truncated count. */
  lemma MapCountRead(k: Shape, w: Shape, m: Value, rest: seq<byte>)
    requires HasShape(m, Map(k, w))
    ensures ReadCount(Encode(Map(k, w), m) + rest)
         == Some((Truncate32(|m.elems|), EncodeAll(Pair(k, w), m.elems) + rest))
  {
    var body := EncodeAll(Pair(k, w), m.elems);
    assert Encode(Map(k, w), m) + rest == CountBytes(|m.elems|) + (body + rest);
    CountRoundTrip(|m.elems|, body + rest);
  }

  /** Reading the first `c` entries of an encoded entry list with distinct keys. */
  lemma MapEntriesRead(k: Shape, w: Shape, es: seq<Value>, c: nat, rest: seq<byte>)
    requires Decodable(k) && Decodable(w) && c <= |es|
    requires forall i :: 0 <= i < |es| ==> HasShape(es[i], Pair(k, w)) && CountsFit(Pair(k, w), es[i])
    requires DistinctKeys(es)
    ensures ReadEntries(k, w, c, [], EncodeAll(Pair(k, w), es) + rest)
         == Some((es[..c], EncodeAll(Pair(k, w), es[c..]) + rest))
    decreases Size(Pair(k, w)), 1, c, 2
  {
    assert EntriesFit(k, w, es);
    EntriesRoundTrip(k, w, c, es, 0, rest);
    assert es[..0] == [] && es[0..] == es;
  }

  /** The map decoder: a count, then that many entries. */
  lemma DecodeMapSteps(k: Shape, w: Shape, b: seq<byte>, n: nat, b1: seq<byte>, es: seq<Value>, b2: seq<byte>)
    requires Decodable(k) && Decodable(w)
    requires ReadCount(b) == Some((n, b1)) && ReadEntries(k, w, n, [], b1) == Some((es, b2))
    ensures Decode(Map(k, w), b) == Some((SeqV(es), b2))
  {
  }

  // ------------------------------------------------------------ decoded values are well typed

  /** Inserting an entry of the map's type keeps the entries well typed and their keys distinct. */
  lemma InsertWellTyped(k: Shape, w: Shape, acc: seq<Value>, p: Value)
    requires HasShape(SeqV(acc), Map(k, w)) && HasShape(p, Pair(k, w))
    ensures HasShape(SeqV(InsertEntry(acc, p)), Map(k, w))
  {
    if !exists i :: 0 <= i < |acc| && SameKey(acc[i], p) {
      var r := acc + [p];
      forall i, j | 0 <= i < j < |r|
        ensures !SameKey(r[i], r[j])
      {
        if j == |acc| {
          assert r[i] == acc[i];
        } else {
          assert r[i] == acc[i] && r[j] == acc[j];
        }
      }
    }
  }

  /**
   * What `Deserialize<T>` returns is a value of type T: pairs of the component
   * types, and unordered_maps whose entries have the key and mapped types and
   * distinct keys.
   */
  lemma {:induction false} DecodeWellTyped(s: Shape, b: seq<byte>)
    requires Decodable(s)
    ensures Decode(s, b).Some? ==> HasShape(Decode(s, b).value.0, s)
    decreases Size(s), 0, 0, 1
  {
    match s
    case Scalar(_) =>
    case Str =>
    case Pair(a, c) =>
      if Decode(a, b).Some? {
        DecodeWellTyped(a, b);
        DecodeWellTyped(c, Decode(a, b).value.1);
      }
    case Map(k, w) =>
      if ReadCount(b).Some? {
        EntriesWellTyped(k, w, ReadCount(b).value.0, [], ReadCount(b).value.1);
      }
  }

  lemma {:induction false} EntriesWellTyped(k: Shape, w: Shape, n: nat, acc: seq<Value>, b: seq<byte>)
    requires Decodable(k) && Decodable(w) && HasShape(SeqV(acc), Map(k, w))
    ensures ReadEntries(k, w, n, acc, b).Some? ==> HasShape(SeqV(ReadEntries(k, w, n, acc, b).value.0), Map(k, w))
    decreases Size(Pair(k, w)), 1, n, 0
  {
    if n > 0 && Decode(Pair(k, w), b).Some? {
      var (p, b1) := Decode(Pair(k, w), b).value;
      DecodeWellTyped(Pair(k, w), b);
      InsertWellTyped(k, w, acc, p);
      ReadEntriesStep(k, w, n, acc, b, p, b1);
      EntriesWellTyped(k, w, n - 1, InsertEntry(acc, p), b1);
    }
  }

  // ------------------------------------------------------------ maps as mappings

  /** The value an unordered_map built by these entries holds for `key`. */
  function Lookup(es: seq<Value>, key: Value): (r: Option<Value>)
    ensures r.Some? ==> PairV(key, r.value) in es
  {
    if es == [] then None
    else if es[0].PairV? && es[0].first == key then Some(es[0].second)
    else Lookup(es[1..], key)
  }

  /** Lookup finds nothing exactly when no entry carries `key`. */
  lemma {:induction false} LookupSound(es: seq<Value>, key: Value)
    ensures Lookup(es, key).None? ==> forall i :: 0 <= i < |es| ==> !(es[i].PairV? && es[i].first == key)
    decreases |es|
  {
    if es != [] && !(es[0].PairV? && es[0].first == key) {
      LookupSound(es[1..], key);
      if Lookup(es, key).None? {
        forall i | 0 <= i < |es| ensures !(es[i].PairV? && es[i].first == key) {
          if i > 0 { assert es[i] == es[1..][i - 1]; }
        }
      }
    }
  }

  /** In entries with distinct keys, an entry present is the one Lookup finds. */
  lemma LookupComplete(es: seq<Value>, key: Value, val: Value)
    requires DistinctKeys(es) && PairV(key, val) in es
    ensures Lookup(es, key) == Some(val)
  {
    LookupSound(es, key);
    var j :| 0 <= j < |es| && es[j] == PairV(key, val);
    var found := Lookup(es, key).value;
    var i :| 0 <= i < |es| && es[i] == PairV(key, found);
    assert SameKey(es[i], es[j]);
  }

  /**
   * The mapping held by entries with distinct keys does not depend on their
   * order: any permutation of them gives the same value for every key.
   */
  lemma LookupOrderInsensitive(a: seq<Value>, b: seq<Value>, key: Value)
    requires DistinctKeys(a) && multiset(a) == multiset(b)
    ensures Lookup(a, key) == Lookup(b, key)
  {
    LookupSound(a, key);
    LookupSound(b, key);
    if Lookup(b, key).Some? {
      var val := Lookup(b, key).value;
      assert PairV(key, val) in multiset(b);
      LookupComplete(a, key, val);
    } else if Lookup(a, key).Some? {
      MemberOfPermutation(a, b, PairV(key, Lookup(a, key).value));
      assert false;
    }
  }

  lemma MemberOfPermutation(a: seq<Value>, b: seq<Value>, x: Value)
    requires multiset(a) == multiset(b) && x in a
    ensures x in b
  {
    assert x in multiset(a);
  }

  /** Lookup over entries with one more entry at the end. */
  lemma {:induction false} LookupSnoc(es: seq<Value>, p: Value, key: Value)
    ensures Lookup(es + [p], key)
         == if Lookup(es, key).Some? then Lookup(es, key)
            else if p.PairV? && p.first == key then Some(p.second) else None
    decreases |es|
  {
    if es == [] {
      assert [] + [p] == [p];
    } else {
      assert (es + [p])[1..] == es[1..] + [p];
      LookupSnoc(es[1..], p, key);
    }
  }

  /**
   * `unordered_map::insert` keeps an existing key's value: after inserting
   * `p`, a key that was present keeps its value, and `p`'s key maps to `p`'s
   * value only if it was absent.
   */
  lemma InsertKeepsFirst(acc: seq<Value>, p: Value, key: Value)
    requires p.PairV?
    ensures Lookup(InsertEntry(acc, p), key)
         == if Lookup(acc, key).Some? then Lookup(acc, key)
            else if p.first == key then Some(p.second) else None
  {
    if exists i :: 0 <= i < |acc| && SameKey(acc[i], p) {
      if key == p.first && Lookup(acc, key).None? {
        LookupSound(acc, key);
        assert false;
      }
    } else {
      LookupSnoc(acc, p, key);
    }
  }

  /**
   * A decoded unordered_map equals the encoded one as a key-to-value mapping,
   * whatever order the original's entries are listed in.
   */
  lemma MapRoundTripAsMapping(k: Shape, w: Shape, m: Value, other: seq<Value>, rest: seq<byte>, key: Value)
    requires Decodable(k) && Decodable(w) && HasShape(m, Map(k, w)) && CountsFit(Map(k, w), m)
    requires multiset(other) == multiset(m.elems)
    ensures Decode(Map(k, w), Encode(Map(k, w), m) + rest).Some?
    ensures Lookup(Decode(Map(k, w), Encode(Map(k, w), m) + rest).value.0.elems, key) == Lookup(other, key)
  {
    RoundTrip(Map(k, w), m, rest);
    LookupOrderInsensitive(m.elems, other, key);
  }

  // ------------------------------------------------------------ truncated input

  /** Decoding reads only the bytes it needs: more input after them changes nothing but the rest. */
  lemma {:induction false} DecodeExtends(s: Shape, b: seq<byte>, x: seq<byte>)
    requires Decodable(s) && Decode(s, b).Some?
    ensures Decode(s, b + x) == Some((Decode(s, b).value.0, Decode(s, b).value.1 + x))
    decreases Size(s), 0, 0, 1
  {
    match s
    case Scalar(w) =>
      assert (b + x)[..w] == b[..w] && (b + x)[w..] == b[w..] + x;
    case Pair(a, c) => PairExtends(a, c, b, x);
    case Str => StrExtends(b, x);
    case Map(k, w) => MapExtends(k, w, b, x);
  }

  lemma {:induction false} PairExtends(a: Shape, c: Shape, b: seq<byte>, x: seq<byte>)
    requires Decodable(a) && Decodable(c) && Decode(Pair(a, c), b).Some?
    ensures Decode(Pair(a, c), b + x) == Some((Decode(Pair(a, c), b).value.0, Decode(Pair(a, c), b).value.1 + x))
    decreases Size(Pair(a, c)), 0, 0, 0
  {
    var b1 := Decode(a, b).value.1;
    DecodeExtends(a, b, x);
    DecodeExtends(c, b1, x);
  }

  lemma {:induction false} StrExtends(b: seq<byte>, x: seq<byte>)
    requires Decode(Str, b).Some?
    ensures Decode(Str, b + x) == Some((Decode(Str, b).value.0, Decode(Str, b).value.1 + x))
    decreases Size(Str), 0, 0, 0
  {
    CountExtends(b, x);
    CharsExtends(ReadCount(b).value.0, [], b[4..], x);
  }

  lemma {:induction false} MapExtends(k: Shape, w: Shape, b: seq<byte>, x: seq<byte>)
    requires Decodable(k) && Decodable(w) && Decode(Map(k, w), b).Some?
    ensures Decode(Map(k, w), b + x) == Some((Decode(Map(k, w), b).value.0, Decode(Map(k, w), b).value.1 + x))
    decreases Size(Map(k, w)), 0, 0, 0
  {
    CountExtends(b, x);
    EntriesExtends(k, w, ReadCount(b).value.0, [], b[4..], x);
  }

  lemma {:induction false} CharsExtends(n: nat, acc: seq<byte>, b: seq<byte>, x: seq<byte>)
    requires ReadChars(n, acc, b).Some?
    ensures ReadChars(n, acc, b + x) == Some((ReadChars(n, acc, b).value.0, ReadChars(n, acc, b).value.1 + x))
    decreases Size(Scalar(1)), 1, n, 0
  {
    if n > 0 {
      DecodeExtends(Scalar(1), b, x);
      var (c, b1) := Decode(Scalar(1), b).value;
      CharsExtends(n - 1, acc + c.bytes, b1, x);
    }
  }

  lemma {:induction false} EntriesExtends(k: Shape, w: Shape, n: nat, acc: seq<Value>, b: seq<byte>, x: seq<byte>)
    requires Decodable(k) && Decodable(w) && ReadEntries(k, w, n, acc, b).Some?
    ensures ReadEntries(k, w, n, acc, b + x)
         == Some((ReadEntries(k, w, n, acc, b).value.0, ReadEntries(k, w, n, acc, b).value.1 + x))
    decreases Size(Pair(k, w)), 1, n, 0
  {
    if n > 0 {
      var (p, b1) := Decode(Pair(k, w), b).value;
      DecodeExtends(Pair(k, w), b, x);
      ReadEntriesStep(k, w, n, acc, b, p, b1);
      ReadEntriesStep(k, w, n, acc, b + x, p, b1 + x);
      EntriesExtends(k, w, n - 1, InsertEntry(acc, p), b1, x);
    }
  }

  /**
   * Decoding from a proper prefix of an encoding fails: input shorter than
   * the encoded size always runs out.
   */
  lemma TruncatedInputFails(s: Shape, v: Value, p: seq<byte>)
    requires Decodable(s) && HasShape(v, s) && CountsFit(s, v)
    requires |p| < |Encode(s, v)| && p == Encode(s, v)[..|p|]
    ensures Decode(s, p) == None
  {
    var full := Encode(s, v);
    if Decode(s, p).Some? {
      var x := full[|p|..];
      assert p + x == full && full + [] == full;
      DecodeExtends(s, p, x);
      RoundTrip(s, v, []);
      assert false;
    }
  }

  // ------------------------------------------------------------ the bulk rule

  /** Cutting raw storage back into `k`-byte elements gives the elements. */
  lemma {:induction false} ChunksOfRawBytes(k: nat, es: seq<Value>)
    requires AllScalars(es, k)
    ensures |RawBytes(es)| == |es| * k && Chunks(k, |es|, RawBytes(es)) == es
    decreases |es|
  {
    RawBytesLength(k, es);
    if es != [] {
      ChunksOfRawBytes(k, es[1..]);
      var raw := RawBytes(es);
      assert raw[..k] == es[0].bytes && raw[k..] == RawBytes(es[1..]);
      assert [es[0]] + es[1..] == es;
    }
  }

  /**
   * The bulk reading rule undoes the bulk writing rule: a count and
   * count * k raw bytes read back as the same elements, leaving the rest.
   */
  lemma BulkRulesInverse(k: nat, es: seq<Value>, rest: seq<byte>)
    requires AllScalars(es, k)
    requires |es| < U32
    ensures ReadBulk(k, CountBytes(|es|) + RawBytes(es) + rest) == Some((es, rest))
  {
    var n := |es|;
    var raw := RawBytes(es);
    ChunksOfRawBytes(k, es);
    var b := CountBytes(n) + raw + rest;
    assert ReadCount(b) == Some((n, raw + rest)) by {
      ConcatAssoc(CountBytes(n), raw, rest);
      CountRoundTrip(n, raw + rest);
    }
    assert (raw + rest)[..|raw|] == raw && (raw + rest)[|raw|..] == rest;
    ReadBulkSteps(k, b, n, raw + rest, |raw|);
  }

  /** The bulk reading rule once the count is read: `len = n * k` bytes cut into elements. */
  lemma ReadBulkSteps(k: nat, b: seq<byte>, n: nat, b1: seq<byte>, len: nat)
    requires ReadCount(b) == Some((n, b1)) && len == n * k && len <= |b1|
    ensures ReadBulk(k, b) == Some((Chunks(k, n, b1[..len]), b1[len..]))
  {
  }

  /**
   * A vector of the three 4-byte integers 1, 2, 3 is encoded in 16 bytes: the
   * count 3, then the three integers; the bulk reading rule gives them back.
   */
  lemma ThreeIntsExample()
    ensures var v := SeqV([ScalarV([1, 0, 0, 0]), ScalarV([2, 0, 0, 0]), ScalarV([3, 0, 0, 0])]);
      && Encode(Vector(Scalar(4)), v) == [3, 0, 0, 0, 1, 0, 0, 0, 2, 0, 0, 0, 3, 0, 0, 0]
      && ReadBulk(4, Encode(Vector(Scalar(4)), v)) == Some((v.elems, []))
  {
    var es := [ScalarV([1, 0, 0, 0]), ScalarV([2, 0, 0, 0]), ScalarV([3, 0, 0, 0])];
    var wire: seq<byte> := [3, 0, 0, 0, 1, 0, 0, 0, 2, 0, 0, 0, 3, 0, 0, 0];
    assert CountBytes(3) + RawBytes(es) == wire by {
      assert RawBytes(es[2..]) == [3, 0, 0, 0] by { assert es[2..][1..] == []; }
      assert RawBytes(es[1..]) == [2, 0, 0, 0, 3, 0, 0, 0] by { assert es[1..][1..] == es[2..]; }
      assert CountBytes(3) == [3, 0, 0, 0];
    }
    assert Encode(Vector(Scalar(4)), SeqV(es)) == wire by {
      assert es[..Truncate32(3)] == es;
    }
    assert ReadBulk(4, wire) == Some((es, [])) by {
      BulkRulesInverse(4, es, []);
      assert CountBytes(3) + RawBytes(es) + [] == wire;
    }
  }
}
