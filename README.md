# sezz: a verified model of the binary codec and the in-memory streams

sezz is a header-only C++ serialization library. This project models two parts of it in Dafny:

- **The wire codec** (`sezz.hpp`). The overloads of `Serialize` write a value to an `ostream`, and `Deserialize<T>` reads one back from an `istream`. The C++ type is described by a `Shape`: a trivially copyable scalar of some width, `std::pair`, an iterable container, `std::basic_string<char>` or `std::unordered_map`. The compile-time dispatch of the source becomes predicates on shapes.
  - The encoder chooses the bulk path by the *element* type. The decoder chooses it by the *container* type. A container that is trivially copyable (`std::array` of scalars) has no `resize`, so that branch does not build for any standard container.
  - So a `std::vector` can be written but not read back: it hits the `static_assert` at line 145, and `Decodable` excludes it.
  - A string is written in bulk and read one character at a time.
  - The element count is an `unsigned int`, so it is truncated modulo 2^32.
  - The rules are pure functions on byte sequences: `Sezz.Encode` and `Sezz.Decode` (module `Sezz`, file `sezz.dfy`).
  - The source's loops are methods proved against those functions: the `for` loop of `Serialize` and the counted `insert` loop of `Deserialize` (module `SezzStream`).
- **The in-memory streams** (`include/sezz/memory_io_stream.hpp`). These are classes with the source's fields:
  - a failure flag shared through the virtual base `MemoryIoBase`;
  - a reader with a cursor over a vector it points at;
  - a writer that owns a vector and grows it by doubling;
  - `MemoryIoStream`, whose reader points at the writer's vector.

  A `std::vector<uint8_t>` is a `ByteVector` object, so the reader and the writer can share it (module `MemoryIo`).

Files:
- `wrappers.dfy`: Option.
- `wire.dfy`: bytes and the 4-byte count.
- `sezz.dfy`: shapes, values and the wire rules.
- `sezz_properties.dfy`: layout, round trips, truncation and map semantics.
- `sezz_stream.dfy`: the loop-based `Serialize` and `Deserialize`.
- `memory_io.dfy`: the stream classes.

Conventions:
- The count is stored little-endian. The source writes it in host byte order.
- A scalar is an opaque string of `sizeof(T)` bytes.
- A failed read of the decoder is `None`.

## Model

| member | source | states |
|---|---|---|
| Wire.Truncate32 | sezz.hpp:79 | the `unsigned int` count is below 2^32 and equals the size when the size fits |
| Wire.CountBytes | sezz.hpp:79-80 | the count is written as exactly 4 bytes |
| Wire.ReadCount | sezz.hpp:123 | reading the count fails exactly when fewer than 4 bytes remain; otherwise it is below 2^32 and the rest starts after the 4 bytes |
| Wire.CountRoundTrip | sezz.hpp:79-80 | reading back a written count gives the size modulo 2^32 and leaves what followed |
| Wire.CountExtends | sezz.hpp:133 | more input after the count changes only the unread rest |
| Wire.ReadRaw | sezz.hpp:151-152 | reading `w` raw bytes fails exactly when fewer than `w` remain, and otherwise splits the input into `w` bytes and the rest |
| Wire.Zeros | include/sezz/memory_io_stream.hpp:51 | a new vector of `n` bytes holds `n` zeros |
| Sezz.TriviallyCopyable | sezz.hpp:77 | the bulk test of the overloads and of the decoder (also lines 90 and 122): only scalars are trivially copyable among the shapes modelled; that no `std::pair` is trivially copyable is an assumption about the standard library (see "## Left out") |
| Sezz.Decodable | sezz.hpp:143-157 | the types `Deserialize<T>` builds for: scalars, strings, and pairs and unordered_maps of decodable types; a vector reaches the `static_assert` at line 145 |
| Sezz.RawBytes | sezz.hpp:81 | the contiguous storage `val.data()` exposes: the elements' bytes back to back; its length is stated by `RawBytesLength` |
| Sezz.EncodeAll | sezz.hpp:94 | the elements' encodings in iteration order; its layout is stated by `EncodeAllAppend` and `EncodeAllAt` |
| Sezz.Encode | sezz.hpp:67-102 | what `Serialize` writes, branch by branch as the overloads choose; its layout is stated by `ScalarLayout`, `CountPrefix`, `PairLayout`, `BulkVectorLayout` and `ElementwiseLayout` |
| SezzProperties.CountPrefix | sezz.hpp:78-80 | a string and every container start with their 4-byte truncated count, and a string is then exactly 4 + (length mod 2^32) bytes long |
| Sezz.InsertEntry | sezz.hpp:141 | `insert` keeps every entry already present, adds at most one, and afterwards some entry carries the inserted key |
| Sezz.ReadChars | sezz.hpp:133-138 | the string loop yields `|acc| + n` characters that extend `acc`, and never consumes more input than there is |
| Sezz.ReadEntries | sezz.hpp:133-141 | the map loop never leaves more input than it was given |
| Sezz.Decode | sezz.hpp:106-159 | the rest is never longer than the input; a scalar read succeeds exactly when `sizeof(T)` bytes remain and consumes exactly that many |
| Sezz.ReadBulk | sezz.hpp:122-126 | a bulk read gives elements of width `k` and consumes exactly 4 + count * k bytes |
| Sezz.Chunks | sezz.hpp:124-125 | raw storage of `n * k` bytes is cut into exactly `n` elements of width `k` |
| SezzProperties.ScalarLayout | sezz.hpp:67-70 | a scalar of width `w` is written as exactly its `w` raw bytes, with no prefix |
| SezzProperties.PairLayout | sezz.hpp:98-102 | a pair is written as `first`'s encoding followed by `second`'s, with nothing between |
| SezzProperties.EncodeAllAppend | sezz.hpp:94 | encoding elements in iteration order distributes over concatenation |
| SezzProperties.ElementwiseLayout | sezz.hpp:87-95 | a container of non-trivially-copyable elements is its count followed by every element's encoding in order; element `i` sits between those before and after it; all elements are written even when the count was truncated |
| SezzProperties.EncodeAllAt | sezz.hpp:94 | element `i`'s encoding sits between those of the elements before and after it |
| SezzProperties.RawBytesLength | sezz.hpp:81 | the storage of `n` elements of `k` bytes is `n * k` bytes long |
| SezzProperties.BulkVectorLayout | sezz.hpp:74-82 | a container of `k`-byte elements starts with its 4-byte count and is 4 + (n mod 2^32) * k bytes long |
| SezzProperties.RawBytesIsElementwise | sezz.hpp:81 | raw storage equals what the elementwise rule would write for the same scalars |
| SezzProperties.BulkMatchesElementwise | sezz.hpp:78-81 | below 2^32 elements the bulk rule and the elementwise rule write the same bytes |
| SezzProperties.CharsRoundTrip | sezz.hpp:133-138 | reading `n` characters takes the next `n` bytes in order, the i-th placed at index i, and leaves the rest |
| SezzProperties.ReadEntriesStep | sezz.hpp:134-141 | one turn of the map loop decodes a pair, inserts it and continues with the rest |
| SezzProperties.ReadEntriesStops | sezz.hpp:135 | the map loop fails as soon as an entry cannot be read |
| SezzProperties.InsertNext | sezz.hpp:141 | with distinct keys, inserting entry `j` after the earlier ones appends it |
| SezzProperties.EntriesStep | sezz.hpp:134-141 | one turn of the map loop over encoded entries with distinct keys reads entry `j` and appends it |
| SezzProperties.EntriesRoundTrip | sezz.hpp:134-141 | reading entries `j` to `n` of encoded distinct-key entries yields the first `n` entries and leaves the encodings of the others |
| SezzProperties.RoundTrip | sezz.hpp:106-159 | for every decodable type, decoding what was encoded gives back the value and leaves what followed, provided all counts fit in 32 bits |
| SezzProperties.PairRoundTrip | sezz.hpp:114-118 | when both components round-trip, the pair round-trips from the two encodings placed back to back |
| SezzProperties.DecodePairSteps | sezz.hpp:114-118 | the pair decoder reads `first` from the input, then `second` from what `first` left |
| SezzProperties.StringCountTruncated | sezz.hpp:78-81 | a string of 2^32 or more characters comes back cut to its length modulo 2^32, with nothing left over |
| SezzProperties.MapCountTruncated | sezz.hpp:91-94 | a map with 2^32 or more entries comes back with only its first (size mod 2^32) entries, and the encodings of the others stay unread |
| SezzProperties.MapCountRead | sezz.hpp:92-93 | an encoded map starts with its truncated count |
| SezzProperties.MapEntriesRead | sezz.hpp:133-141 | reading the first `c` entries of an encoded distinct-key entry list yields them in order |
| SezzProperties.DecodeMapSteps | sezz.hpp:133-141 | the map decoder reads a count, then that many entries |
| SezzProperties.InsertWellTyped | sezz.hpp:141 | inserting an entry keeps a map's entries well typed with distinct keys |
| SezzProperties.DecodeWellTyped | sezz.hpp:106-159 | what `Deserialize<T>` returns is a value of type T, and decoded maps have distinct keys |
| SezzProperties.EntriesWellTyped | sezz.hpp:134-141 | the map loop yields well-typed entries with distinct keys |
| SezzProperties.Lookup | sezz.hpp:141 | the value a map built from these entries holds for a key; what it finds is one of the entries |
| SezzProperties.LookupSound | sezz.hpp:141 | a lookup finds nothing exactly when no entry carries the key |
| SezzProperties.LookupComplete | sezz.hpp:141 | among distinct-key entries, a present entry is the one a lookup finds |
| SezzProperties.LookupOrderInsensitive | sezz.hpp:141 | any permutation of distinct-key entries gives the same value for every key |
| SezzProperties.LookupSnoc | sezz.hpp:141 | a lookup over entries with one more entry at the end finds the earlier one first |
| SezzProperties.InsertKeepsFirst | sezz.hpp:141 | `insert` keeps a present key's value, and adds the new pair's value only when the key was absent |
| SezzProperties.MapRoundTripAsMapping | sezz.hpp:133-141 | a decoded map equals the encoded one as a key-to-value mapping, whatever order its entries were listed in |
| SezzProperties.DecodeExtends | sezz.hpp:106-159 | decoding reads only the bytes it needs: more input after them changes only the rest |
| SezzProperties.PairExtends | sezz.hpp:114-118 | the same for a pair |
| SezzProperties.StrExtends | sezz.hpp:133-138 | the same for a string |
| SezzProperties.MapExtends | sezz.hpp:133-141 | the same for a map |
| SezzProperties.CharsExtends | sezz.hpp:134-138 | the same for the string loop |
| SezzProperties.EntriesExtends | sezz.hpp:134-141 | the same for the map loop |
| SezzProperties.TruncatedInputFails | sezz.hpp:106-159 | decoding a proper prefix of an encoding fails |
| SezzProperties.ChunksOfRawBytes | sezz.hpp:124-125 | cutting raw storage back into `k`-byte elements gives the original elements |
| SezzProperties.BulkRulesInverse | sezz.hpp:122-126 | the bulk read undoes the bulk write: a count and count * k raw bytes read back as the same elements, leaving the rest |
| SezzProperties.ReadBulkSteps | sezz.hpp:123-125 | the bulk read takes the count, then exactly count * k bytes |
| SezzProperties.ThreeIntsExample | sezz.hpp:79-81 | three 4-byte ints 1, 2, 3 are written as the 16 bytes `3 0 0 0 1 0 0 0 2 0 0 0 3 0 0 0` and read back by the bulk rule |
| SezzStream.EncodeAllSnoc | sezz.hpp:94 | the encodings of the first i + 1 elements are those of the first i, then element i's |
| SezzStream.Serialize | sezz.hpp:67-102 | `Serialize` appends exactly `Encode(s, v)` to the stream |
| SezzStream.SerializeVector | sezz.hpp:74-95 | the two container overloads, chosen by the element type, append the container's encoding |
| SezzStream.SerializeBulk | sezz.hpp:78-81 | the bulk overload appends the count and the raw bytes of the first (n mod 2^32) elements |
| SezzStream.SerializeMap | sezz.hpp:91-94 | a map is written by the elementwise overload: count, then each entry |
| SezzStream.SerializeEach | sezz.hpp:94 | the `for` loop appends every element's encoding in iteration order |
| SezzStream.Deserialize | sezz.hpp:106-159 | reading from cursor `pos` fails exactly when `Decode` of the unread input fails; otherwise it returns `Decode`'s value, with the new cursor just past the consumed bytes |
| SezzStream.DeserializeChars | sezz.hpp:133-138 | the string loop, inserting the i-th character at index i, agrees with `ReadChars` on failure, characters and cursor |
| SezzStream.DeserializeEntries | sezz.hpp:133-141 | the map loop, inserting each pair, agrees with `ReadEntries` on failure, entries and cursor |
| MemoryIo.Doubled | include/sezz/memory_io_stream.hpp:58 | the size after `j` turns of `cur_size *= 2`, never smaller than the start |
| MemoryIo.GrownSize | include/sezz/memory_io_stream.hpp:56-59 | the doubling loop stops at a size no smaller than the old one and holding `pos_ + size` bytes |
| MemoryIo.GrownSizeIsLeastDoubling | include/sezz/memory_io_stream.hpp:56-62 | the new size is oldLen * 2^j for the least j with `pos_ + size <= oldLen * 2^j`, and it is unchanged when the data already fits |
| MemoryIo.DoublingsNeeded | include/sezz/memory_io_stream.hpp:57-59 | the number of doublings the loop performs, with every earlier doubling too small |
| MemoryIo.DoubledShift | include/sezz/memory_io_stream.hpp:58 | doubling twice the size j times is doubling the size j + 1 times |
| MemoryIo.EmptyNeverGrows | include/sezz/memory_io_stream.hpp:51-59 | a vector of size 0 stays 0 however often it is doubled, so a write of a byte or more into it never leaves the loop |
| MemoryIo.WriteAt | include/sezz/memory_io_stream.hpp:55-64 | after a write the buffer has the grown size, at least the old length and at least `pos_ + size`; bytes `[pos_, pos_ + size)` are the written ones; bytes outside them are unchanged; growth bytes are zero, including a gap left by an earlier seek past the end |
| MemoryIo.ReadFitsAsWritten | include/sezz/memory_io_stream.hpp:28 | the bounds check as written, with `pos_ + size` wrapping around modulo 2^64 |
| MemoryIo.WrappedCheckAdmitsOverread | include/sezz/memory_io_stream.hpp:28-32 | after seeking to 2^64 - 1, a two-byte read from a one-byte vector passes the check as written but not the intended one |
| MemoryIo.ReadFits | include/sezz/memory_io_stream.hpp:28 | the intended check passes exactly when the cursor is inside the vector and `size` bytes follow it; whenever `pos_ + size` does not wrap around it agrees with the check as written |
| MemoryIo.MemoryIoBase.constructor | include/sezz/memory_io_stream.hpp:10-12 | the failure flag starts false |
| MemoryIo.MemoryIoBase.Fail | include/sezz/memory_io_stream.hpp:14-16 | `fail()` returns the flag |
| MemoryIo.ByteVector.constructor | include/sezz/memory_io_stream.hpp:51 | a vector of `size` zero bytes |
| MemoryIo.MemoryInputStream.constructor | include/sezz/memory_io_stream.hpp:23-25 | a reader points at the given vector, with its cursor at 0 and a clear flag |
| MemoryIo.MemoryInputStream.Shared | include/sezz/memory_io_stream.hpp:23-25 | the same, sharing the given failure flag |
| MemoryIo.MemoryInputStream.Read | include/sezz/memory_io_stream.hpp:27-34 | a read succeeds iff `ReadFits`: `pos_ + size` is within the vector; then the buffer receives bytes `[pos_, pos_ + size)`, the cursor moves by `size` and the flag is unchanged; otherwise the flag is set and the cursor and buffer are unchanged; the vector is never changed |
| MemoryIo.MemoryInputStream.TellG | include/sezz/memory_io_stream.hpp:36-38 | `tellg()` returns the read cursor |
| MemoryIo.MemoryInputStream.SeekG | include/sezz/memory_io_stream.hpp:40-42 | `seekg(p)` sets the read cursor to exactly `p` |
| MemoryIo.MemoryOutputStream.constructor | include/sezz/memory_io_stream.hpp:51-53 | a writer owns a fresh vector of `size` zero bytes, with its cursor at 0 and a clear flag |
| MemoryIo.MemoryOutputStream.Shared | include/sezz/memory_io_stream.hpp:51-53 | the same, sharing the given failure flag |
| MemoryIo.MemoryOutputStream.Write | include/sezz/memory_io_stream.hpp:55-65 | the doubling loop and the copy leave the vector as `WriteAt` of the old vector, cursor and bytes, and move the cursor by the number of bytes |
| MemoryIo.MemoryOutputStream.TellP | include/sezz/memory_io_stream.hpp:67-69 | `tellp()` returns the write cursor |
| MemoryIo.MemoryOutputStream.SeekP | include/sezz/memory_io_stream.hpp:71-73 | `seekp(p)` sets the write cursor to exactly `p` |
| MemoryIo.MemoryOutputStream.Data | include/sezz/memory_io_stream.hpp:75-77 | `data()` exposes the whole vector, up to its size rather than the cursor |
| MemoryIo.MemoryIoStream.constructor | include/sezz/memory_io_stream.hpp:84-89 | the reader points at the writer's fresh vector of `size` zeros, both share one clear flag, and both cursors start at 0 |
| MemoryIo.WriteThenRead | include/sezz/memory_io_stream.hpp:84-89 | bytes written to a stream of positive size are read back unchanged and without failure, however much the vector grew |
| MemoryIo.ReadUpToCapacity | include/sezz/memory_io_stream.hpp:27-34 | reads are bounded by the vector's size, not by the write cursor: `size` zeros are read without any write, an overread sets the flag, and the flag stays set after a later read that fits |
| MemoryIo.IndependentCursors | include/sezz/memory_io_stream.hpp:36-42 | writing moves only the write cursor, and seeking the reader moves only the read cursor |

## Left out

- Sezz.Decode: a failed read is `None`. The source keeps going after the `istream` fails and returns a partly filled, value-initialised result (sezz.hpp:111). The model does not say what that result is.
- Sezz.Decode: its own contract gives only length facts. What the consumed bytes are is stated by `SezzStream.Deserialize` (the rest is a suffix of the input at the returned cursor) and by the round-trip lemmas.
- SezzStream.Deserialize: it reads from a byte sequence and a cursor, not from a `MemoryInputStream`. Its failure result stands for the stream's failure flag.
- `std::vector` decoding is a build-time `static_assert` (sezz.hpp:145). `Decodable` excludes it, as it does for the unsupported types at sezz.hpp:156. SFINAE overload selection is replaced by the `Shape` dispatch.
- The bulk read at sezz.hpp:122-126 does not build for any standard container: the only trivially copyable one, `std::array`, has no `resize` (line 124). It is modelled as a separate rule, `ReadBulk`, with its inverse lemma.
- Sezz.TriviallyCopyable: assumes no `std::pair` is trivially copyable. That holds for standard libraries whose pair declares its own copy assignment, but the C++ standard does not require it. A library with a trivially copyable `std::pair<const K, V>` makes `Serialize` of an `unordered_map<K, V>` with scalar `K` and `V` pick the bulk overload (sezz.hpp:77), which then fails to build at `val.data()` (line 81); the model still encodes such a map element by element. With a trivially copyable `std::pair<T1, T2>`, a `std::vector` of pairs is written as raw storage, padding included, rather than element by element as the model does.
- Sezz.Decode: a decoded unordered_map lists its entries in insertion order. That order only stands for the hash table's own iteration order, which the source does not fix. So `RoundTrip`'s equality for maps is one representative; the program promises equality only as a key-to-value mapping (`MapRoundTripAsMapping`).
- `Vector` stands for containers with contiguous `data()` storage. The bulk overload calls `val.data()` (sezz.hpp:81), so `std::list` or `std::set` of scalars do not build with it.
- `Str` is `std::basic_string<char>`. The source's string test (sezz.hpp:37-38) also matches strings of wider characters; those are not modelled.
- Host byte order, struct layout and floating point: every scalar is an opaque byte string, and the count is fixed little-endian.
- The placement `new` over `res` in the pair decoder (sezz.hpp:117): only the resulting value is modelled.
- The `ostream`/`istream` objects: output is the sequence written so far, and input is a sequence plus a cursor.
- `size_t` overflow in the streams: cursors and sizes are unbounded naturals. The wrap-around of `pos_ + size` in `read` is recorded under Findings; the same wrap in `write`'s loop test (memory_io_stream.hpp:57), and the overflow of `cur_size *= 2`, are not modelled.
- MemoryIo.MemoryOutputStream.Write: requires a non-empty vector, or a write that fits without growth. With size 0 the source's loop never ends (`MemoryIo.EmptyNeverGrows`).
- MemoryIo.MemoryOutputStream.Data: it returns the bytes, not a pointer. The pointer's invalidation when the vector grows is not modelled.
- MemoryIo.MemoryInputStream.Read: the destination is an array of at least `size` bytes, as `memcpy` needs.
- The archive classes used by tests/test.cpp, `include/sezz/type_traits.hpp` (compile-time traits only, replaced by `Shape`) and `include/sezz/stl/set.hpp` (it delegates to `sezz/stl/index.hpp`) are not part of this model.

## Findings

| source | as written | input that shows it | evidently intended | confidence | as-written member | corrected member |
|---|---|---|---|---|---|---|
| include/sezz/memory_io_stream.hpp:28 | the check adds `pos_ + size` in `size_t`, which wraps modulo 2^64 | `seekg(2^64 - 1)` on a one-byte vector, then `read(buf, 2)`: the sum wraps to 1, the check passes and `memcpy` reads past the end | fail whenever the bytes after the cursor are fewer than `size` | not executed | MemoryIo.ReadFitsAsWritten | MemoryIo.ReadFits |
| include/sezz/memory_io_stream.hpp:57-59 | the growth loop doubles `cur_size`, which stays 0 for a vector created with size 0 | `MemoryOutputStream(0)` or `MemoryIoStream(0)`, then `write(buf, 1)`: `pos_ + size` is 1, `cur_size` stays 0 and the loop never ends | growth always ends with a vector that holds `pos_ + size` bytes | not executed | MemoryIo.EmptyNeverGrows | MemoryIo.GrownSize |
