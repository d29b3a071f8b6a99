# ssz_types in Dafny

This project models the core of the Rust crate `ssz_types`. The crate provides
the bounded collections of Ethereum's Simple Serialize (SSZ):

- `VariableList<T, N>`: an SSZ List, with at most `N` elements.
- `FixedVector<T, N>`: an SSZ Vector, with exactly `N` elements.
- `VariableListU8` and `FixedVectorU8`: their byte specialisations.
- `RuntimeVariableList` and `RuntimeFixedVector`: the same containers with the
  bound chosen at run time.
- `Optional<T>`: the EIP-6475 Optional.

For each container the model covers its construction and mutation, its SSZ
encoding and decoding, the shape of its Merkleization, the
generalized-index arithmetic of `Resolve::gindex`, and the conversion of
type-level capacities to `usize`.

The modules follow the source files:

| module | file | contents |
|---|---|---|
| `SszTypes` | ssz_types.dfy | shared vocabulary: bytes, `Hash256`, the crate's `Error`, the decoder's `DecodeError`, the output buffer |
| `Arith` | arith.dfy | division facts and `CeilDiv` (`usize::div_ceil`) |
| `SszCodec` | ssz_codec.dfy | the abstract element codec; the SSZ encoding of a sequence (concatenation, or offset table plus bodies); the chunk-by-chunk decode loop |
| `TreeHash` | tree_hash.dfy | leaf limits, packing, the write loop into a `MerkleHasher`, gindex arithmetic |
| `TypenumHelpers` | typenum_helpers.dfy | `to_usize` under a pointer width and an overflow policy |
| `VariableLists`, `FixedVectors`, `RuntimeVariableLists`, `RuntimeFixedVectors`, `VariableListsU8`, `FixedVectorsU8`, `Optionals` | one file each | the containers |

The containers that the source mutates through `&mut self` are classes:

- `vec` is a `seq` field.
- The type-level `N` is an immutable field (`maxLen`, `capacity`).
- `RuntimeFixedVector`'s length is a field, because `take` reassigns the
  whole struct.

Each decoder is a function. The class's `FromSszBytes` method is proved equal
to that function. The decode loop of the source (`try_fold` over
`chunks(size)`) is the method `DecodeChunks`, whose loop is proved against the
recursive `DecodeFixedItems`.

An element type `T` is represented by an `ElemCodec<T>` of function values:

- its `is_ssz_fixed_len` and `ssz_fixed_len`;
- the bytes its `ssz_append` writes;
- its `ssz_bytes_len`;
- its `from_ssz_bytes`;
- the external `decode_list_of_variable_length_items` instantiated at `T`.

The properties the containers need from `T` are stated as ghost predicates
(`RoundTrips`, `SizesConsistent`, `RejectsWrongLength`, `HonoursBound`,
`VariableDecoderLaws`)
and are taken as preconditions of the lemmas that need them.

The hash function, `merkleize` and `mix_in_length` are uninterpreted function
values.

## Model

| member | source | states |
|---|---|---|
| `Arith.CeilDiv` | src/runtime_types/runtime_variable_list.rs:251 | `div_ceil(n, d)`: the result times `d` is at least `n` and less than `n + d` |
| `SszCodec.SszAppendItems` | src/fixed_vector.rs:235-252 | `ssz_append` of a sequence appends exactly its SSZ encoding to the buffer and leaves what was there untouched |
| `SszCodec.AppendConcatenated` | src/fixed_vector.rs:236-241 | fixed-size branch: the element encodings are appended one after another in sequence order |
| `SszCodec.AppendOffsets` | src/fixed_vector.rs:243-248 | variable-size branch: one 4-byte offset per element is written, each pointing past the previous bodies and starting after the table; the bodies are returned to be written after it |
| `SszCodec.SszBytesLenIsEncodedLength` | src/fixed_vector.rs:231-233 | `ssz_bytes_len`, computed from the element sizes, is the length of the bytes `ssz_append` writes |
| `SszCodec.EncodeShape` | src/fixed_vector.rs:235-252 | fixed-size elements take `size(T) * len` bytes; variable-size ones take a `4 * len`-byte table, then the bodies, and the first offset is `4 * len`; the encoding is empty exactly for the empty sequence (or zero-size elements) |
| `SszCodec.DecodeChunks` | src/variable_list.rs:318-324 | the `try_fold` loop over `chunks(size)` yields the element-wise decode of the chunks, stopping at the first error |
| `SszCodec.DecodeFixedItemsRoundTrip` | src/variable_list.rs:318-324 | decoding the concatenated encodings chunk by chunk gives the elements back, when each element round-trips |
| `SszCodec.DecodeFixedItemsLength` | src/runtime_types/runtime_variable_list.rs:140-146 | when the element decoder refuses wrong-length input, an accepted input is exactly `size(T)` times the number of decoded elements long |
| `SszCodec.DecodeFixedItemsChunkCount` | src/fixed_vector.rs:321-327 | whatever the element decoder does, a successful chunked decode has `ceil(len / size)` elements, so a short trailing chunk counts as one more |
| `SszCodec.U8EncodeIsRaw` | src/variable_list_u8.rs:162-164 | a byte sequence encodes to itself |
| `TreeHash.NextPow2` | src/tree_hash.rs:65 | `next_power_of_two`: a power of two, at least `n` and at least 1, below `2n` for `n >= 1` |
| `TreeHash.NextPow2IsLeast` | src/tree_hash.rs:65 | no smaller power of two is at least `n` |
| `TreeHash.LeafBytesLength` | src/tree_hash.rs:22-26 | each element contributes `packed_size` bytes (Basic) or a 32-byte root (composite) to the hasher input |
| `TreeHash.LeafBytesOrder` | src/tree_hash.rs:22-26 | element `i`'s bytes sit at offset `width * i` of the hasher input, so elements are written in sequence order |
| `TreeHash.LeafBytesFit` | src/tree_hash.rs:17-26 | with at most `N` elements and `pf * size <= 32`, the hasher input fits in `32 * leaf limit` bytes |
| `TreeHash.MerkleHasher.constructor` | src/tree_hash.rs:18-20 | `MerkleHasher::with_leaves` starts empty with the given leaf count |
| `TreeHash.MerkleHasher.Write` | src/tree_hash.rs:22-26 | `write` succeeds exactly when the bytes fit the padded tree, appending them; otherwise it fails and keeps the buffer |
| `TreeHash.MerkleHasher.Finish` | src/tree_hash.rs:28-30 | `finish` is the Merkle root of what was written, over the given leaf count |
| `TreeHash.VecTreeHashRoot` | src/runtime_types/runtime_variable_list.rs:244-277 | the data root is `merkleize` of every element's bytes in order over `ceil(N / pf)` (Basic) or `N` (composite) leaves; no write is refused, so no `expect` fires |
| `TreeHash.U8LeafBytes` | src/variable_list_u8.rs:143-146 | `u8` is a well-formed Basic type whose hasher input is the bytes themselves, over `ceil(N / 32)` leaves |
| `TreeHash.LeafLimitAsWrittenAgrees` | src/tree_hash.rs:17-20 | while `N + pf - 1` fits in `usize`, the written leaf limit is `ceil(N / pf)` |
| `TreeHash.LeafLimitAsWrittenOverflows` | src/tree_hash.rs:17-20 | for `N = usize::MAX` and `pf = 32` the written formula gives 0 leaves, whereas `ceil(N / pf)` is 2^59 |
| `TreeHash.ItemPositionInRange` | src/tree_hash.rs:55-66 | element `i < N` lies in one of the list's `chunk_count` leaves |
| `TreeHash.ListItemUnderDataRoot` | src/tree_hash.rs:55-66 | for every index whose position `pos` is below `next_pow2(chunk_count)`, below the maximum length or not, the gindex divided by `next_pow2(chunk_count)` is `2 * parent`: it lies in the data subtree, beside the length mix-in |
| `TreeHash.ListElementUnderDataRoot` | src/tree_hash.rs:55-66 | every index below the maximum length `N` has such a position, so its gindex lies in the data subtree |
| `TreeHash.FieldUnderContainer` | src/tree_hash.rs:138-145 | a field's gindex divided by `next_pow2(NUM_FIELDS)` is the container's gindex |
| `TreeHash.GindexExamples` | src/tree_hash.rs:214-221 | the test paths resolve from the root to 8, 9, 89 and 1049 |
| `TypenumHelpers.ToUsize` | src/typenum_helpers.rs:4-42 | on success the result is `min(N, usize::MAX)`, so never above either; it fails exactly when the panic policy is in force and `N` exceeds `usize::MAX`, reporting both |
| `VariableLists.PreAllocation` | src/variable_list.rs:273-281 | the reserved capacity never exceeds 131072, `N` or the size hint, and is one of them |
| `VariableLists.DecodeList` | src/variable_list.rs:298-332 | empty input is the empty list; zero-size elements give `ZeroLengthItem`; a floor item count above `N` gives `BytesInvalid`; every success has at most `N` elements |
| `VariableLists.DecodeListRoundTrip` | src/variable_list.rs:298-332 | an encoded list decodes back to itself, for lawful element codecs with non-zero size |
| `VariableLists.VariableList.Empty` | src/variable_list.rs:102-107 | `empty` (and `Default`) is the valid empty list |
| `VariableLists.VariableList.RepeatFull` | src/variable_list.rs:110-118 | exactly `N` copies of the element |
| `VariableLists.VariableList.New` | src/variable_list.rs:87-99 | succeeds exactly when `len <= N`, keeping the contents; otherwise `OutOfBounds { i: len, len: N }` |
| `VariableLists.VariableList.Push` | src/variable_list.rs:138-148 | below `N` appends at the end; at `N` returns `OutOfBounds { i: len + 1, len: N }` and leaves the list unchanged; validity is kept |
| `VariableLists.VariableList.Set` | src/variable_list.rs:183-188 | an index write replaces that element only; the length stays within the bound |
| `VariableLists.VariableList.TryFromIter` | src/variable_list.rs:266-287 | succeeds exactly when the items fit, giving the list `new` would; otherwise fails on item `N + 1` with `OutOfBounds { i: N + 1, len: N }` |
| `VariableLists.VariableList.SszAppend` | src/variable_list.rs:261-263 | appends the SSZ encoding of the elements |
| `VariableLists.VariableList.SszBytesLen` | src/variable_list.rs:257-259 | the length of that encoding |
| `VariableLists.VariableList.FromSszBytes` | src/variable_list.rs:298-332 | the result and the error are those of `DecodeList`, and the list carries bound `N` |
| `VariableLists.VariableList.TreeHashRoot` | src/variable_list.rs:238-242 | the data root over `N` elements' leaves with the length mixed in |
| `FixedVectors.DecodeVector` | src/fixed_vector.rs:300-343 | empty input gives `InvalidByteLength { len: 0, expected: 1 }`; zero-size elements give `ZeroLengthItem`; a floor item count other than `N` gives `BytesInvalid`; every success has exactly `N` elements |
| `FixedVectors.DecodeVectorExactLength` | src/fixed_vector.rs:314-333 | for fixed-size elements only `size(T) * N` bytes can decode, whatever the element decoder does with a short chunk |
| `FixedVectors.DecodeVectorRoundTrip` | src/fixed_vector.rs:300-343 | for `N > 0` an encoded vector decodes back to itself |
| `FixedVectors.EmptyVectorDoesNotRoundTrip` | src/fixed_vector.rs:303-307 | for `N = 0` the encoding is empty and decoding it fails |
| `FixedVectors.SszFixedLenIsEncodedLength` | src/fixed_vector.rs:223-229 | a vector of fixed-size elements encodes to exactly `ssz_fixed_len = size(T) * N` bytes |
| `FixedVectors.FixedVector.FromElem` | src/fixed_vector.rs:91-99 | `N` copies of the element |
| `FixedVectors.FixedVector.New` | src/fixed_vector.rs:76-88 | succeeds exactly when `len == N`; too short and too long both report `OutOfBounds { i: len, len: N }` |
| `FixedVectors.FixedVector.Build` | src/fixed_vector.rs:78-81 | the struct literal stores a vector of length `N` |
| `FixedVectors.FixedVector.Set` | src/fixed_vector.rs:151-156 | an index write replaces that element only; the length stays `N` |
| `FixedVectors.FixedVector.TryFromIter` | src/fixed_vector.rs:258-281 | succeeds exactly when there are `N` items; item `N + 1` bails out with `OutOfBounds { i: N, len: N }`; too few items fail in `new` with `i = len` |
| `FixedVectors.FixedVector.SszAppend` | src/fixed_vector.rs:235-252 | appends the SSZ encoding of the elements |
| `FixedVectors.FixedVector.SszBytesLen` | src/fixed_vector.rs:231-233 | the length of that encoding, which is `ssz_fixed_len` for fixed-size elements |
| `FixedVectors.FixedVector.FromSszBytes` | src/fixed_vector.rs:300-343 | the result and the error are those of `DecodeVector` |
| `FixedVectors.FixedVector.TreeHashRoot` | src/fixed_vector.rs:210-212 | the data root over `N` elements' leaves, with no length mixed in |
| `RuntimeVariableLists.DecodeRuntime` | src/runtime_types/runtime_variable_list.rs:124-151 | empty input is the empty list; zero-size elements give `ZeroLengthItem`; a floor item count above `max_len` gives `BytesInvalid` |
| `RuntimeVariableLists.DecodeRuntimeBounded` | src/runtime_types/runtime_variable_list.rs:140-150 | if the element decoder refuses short chunks and the external decoder honours its bound, a decoded list has at most `max_len` elements |
| `RuntimeVariableLists.DecodeFixedItemsCountIsFloor` | src/runtime_types/runtime_variable_list.rs:128-146 | under the first assumption the floor count is the number of elements decoded |
| `RuntimeVariableLists.DecodeRuntimeNeedsStrictElements` | src/runtime_types/runtime_variable_list.rs:140-146 | without that assumption, three bytes of two-byte elements with `max_len = 1` decode to two elements |
| `RuntimeVariableLists.DecodeRuntimeRoundTrip` | src/runtime_types/runtime_variable_list.rs:124-151 | an encoded list decodes back to itself with its own `max_len` |
| `RuntimeVariableLists.RuntimeVariableList.Empty` | src/runtime_types/runtime_variable_list.rs:75-80 | the valid empty list with the given `max_len` |
| `RuntimeVariableLists.RuntimeVariableList.Build` | src/runtime_types/runtime_variable_list.rs:150 | the struct literal stores any vector with the given `max_len` |
| `RuntimeVariableLists.RuntimeVariableList.New` | src/runtime_types/runtime_variable_list.rs:63-72 | succeeds exactly when `len <= max_len`, storing `max_len`; otherwise `OutOfBounds { i: len, len: max_len }` |
| `RuntimeVariableLists.RuntimeVariableList.Push` | src/runtime_types/runtime_variable_list.rs:110-120 | below `max_len` appends; otherwise `OutOfBounds { i: len.saturating_add(1), len: max_len }` and no change; a valid list stays valid |
| `RuntimeVariableLists.RuntimeVariableList.Set` | src/runtime_types/runtime_variable_list.rs:169-174 | an index write replaces that element only |
| `RuntimeVariableLists.RuntimeVariableList.SszAppend` | src/runtime_types/runtime_variable_list.rs:210-212 | appends the SSZ encoding of the elements |
| `RuntimeVariableLists.RuntimeVariableList.SszBytesLen` | src/runtime_types/runtime_variable_list.rs:218-220 | the length of that encoding |
| `RuntimeVariableLists.RuntimeVariableList.FromSszBytes` | src/runtime_types/runtime_variable_list.rs:124-151 | the result and the error are those of `DecodeRuntime`; the list always carries the given `max_len` |
| `RuntimeVariableLists.RuntimeVariableList.TreeHashRoot` | src/runtime_types/runtime_variable_list.rs:236-240 | the data root over `div_ceil(max_len, pf)` or `max_len` leaves, with the length mixed in |
| `RuntimeFixedVectors.RuntimeFixedVector.New` | src/runtime_types/runtime_fixed_vector.rs:21-24 | stores the contents and their length |
| `RuntimeFixedVectors.RuntimeFixedVector.Default` | src/runtime_types/runtime_fixed_vector.rs:43-48 | `max_len` default values, with `len == max_len` |
| `RuntimeFixedVectors.RuntimeFixedVector.Build` | src/runtime_types/runtime_fixed_vector.rs:53-56 | the struct literal |
| `RuntimeFixedVectors.RuntimeFixedVector.Len` | src/runtime_types/runtime_fixed_vector.rs:35-37 | for a valid vector the stored length is the element count |
| `RuntimeFixedVectors.RuntimeFixedVector.Set` | src/runtime_types/runtime_fixed_vector.rs:68-72 | a write through the slice replaces one element; the stored length is unchanged and still agrees with the contents |
| `RuntimeFixedVectors.RuntimeFixedVector.Take` | src/runtime_types/runtime_fixed_vector.rs:50-57 | the returned vector has the old contents and the old `len`; this one now holds `len` defaults with `len` unchanged and valid |
| `VariableListsU8.DecodeByteList` | src/variable_list_u8.rs:187-190 | a byte list decodes to itself exactly when it has at most `N` bytes; otherwise the error is `TooManyItems` |
| `VariableListsU8.ByteListRoundTrip` | src/variable_list_u8.rs:149-190 | the encoding is the raw bytes, `ssz_bytes_len` is the length, and decoding gives the bytes back, the empty list included |
| `VariableListsU8.VariableListU8.Empty` | src/variable_list_u8.rs:37-41 | the empty byte list |
| `VariableListsU8.VariableListU8.Wrap` | src/variable_list_u8.rs:32-34 | the wrapper around a `VariableList<u8, N>` |
| `VariableListsU8.VariableListU8.New` | src/variable_list_u8.rs:31-35 | the outcome and error of `VariableList::<u8, N>::new` |
| `VariableListsU8.VariableListU8.Push` | src/variable_list_u8.rs:55-57 | the outcome and error of `VariableList::push` |
| `VariableListsU8.VariableListU8.Set` | src/variable_list_u8.rs:91-96 | an index write replaces one byte |
| `VariableListsU8.VariableListU8.TryFromIter` | src/variable_list_u8.rs:167-177 | the outcome and error of `VariableList::try_from_iter` |
| `VariableListsU8.VariableListU8.SszAppend` | src/variable_list_u8.rs:162-164 | appends the stored bytes as they are |
| `VariableListsU8.VariableListU8.SszBytesLen` | src/variable_list_u8.rs:158-160 | the number of stored bytes |
| `VariableListsU8.VariableListU8.FromSszBytes` | src/variable_list_u8.rs:187-190 | accepts exactly inputs of at most `N` bytes, holding them; longer ones give `TooManyItems` |
| `VariableListsU8.VariableListU8.TreeHashRoot` | src/variable_list_u8.rs:143-146 | the root of `VariableList<u8, N>`: the bytes over `ceil(N / 32)` leaves with the length mixed in |
| `FixedVectorsU8.DecodeByteVector` | src/fixed_vector_u8.rs:183-187 | accepts exactly inputs of `N` bytes and holds them; every other input fails with `BytesInvalid` wrapping `OutOfBounds { i: len, len: N }` |
| `FixedVectorsU8.DecodeByteVectorMatchesFixedVector` | src/fixed_vector_u8.rs:183-187 | on non-empty input it agrees with `FixedVector<u8, N>`'s decoder; on empty input with `N = 0` it succeeds where that one fails |
| `FixedVectorsU8.ByteVectorRoundTrip` | src/fixed_vector_u8.rs:144-187 | the encoding is the raw bytes; `ssz_fixed_len` is `N`; decoding gives the bytes back for every `N` |
| `FixedVectorsU8.FixedVectorU8.FromElem` | src/fixed_vector_u8.rs:37-41 | `N` copies of the byte |
| `FixedVectorsU8.FixedVectorU8.Wrap` | src/fixed_vector_u8.rs:32-34 | the wrapper around a `FixedVector<u8, N>` |
| `FixedVectorsU8.FixedVectorU8.New` | src/fixed_vector_u8.rs:31-35 | the outcome and error of `FixedVector::<u8, N>::new` |
| `FixedVectorsU8.FixedVectorU8.Set` | src/fixed_vector_u8.rs:87-92 | an index write replaces one byte; the length stays `N` |
| `FixedVectorsU8.FixedVectorU8.TryFromIter` | src/fixed_vector_u8.rs:162-172 | the outcome and error of `FixedVector::try_from_iter` |
| `FixedVectorsU8.FixedVectorU8.SszAppend` | src/fixed_vector_u8.rs:157-159 | appends the stored bytes, which is `FixedVector<u8, N>`'s encoding |
| `FixedVectorsU8.FixedVectorU8.SszBytesLen` | src/fixed_vector_u8.rs:153-155 | the length of the encoding, which is `N` for a valid vector |
| `FixedVectorsU8.FixedVectorU8.FromSszBytes` | src/fixed_vector_u8.rs:183-187 | the result and the error are those of `DecodeByteVector` |
| `FixedVectorsU8.FixedVectorU8.TreeHashRoot` | src/fixed_vector_u8.rs:139-141 | the root of `FixedVector<u8, N>`: the bytes over `ceil(N / 32)` leaves, no length mixed in |
| `Optionals.SszAppend` | src/optional.rs:119-128 | appends nothing for `None`, or the byte `0x01` and then the value's encoding |
| `Optionals.SszBytesLen` | src/optional.rs:112-117 | 0 or the value's length plus 1, which is the length `ssz_append` writes |
| `Optionals.DecodeOptional` | src/optional.rs:139-155 | `None` exactly for empty input; a first byte other than `0x01` is `BytesInvalid`; a `Some` came from `0x01` followed by the value's accepted bytes |
| `Optionals.OptionalRoundTrip` | src/optional.rs:119-155 | every Optional decodes from its encoding when its values do |
| `Optionals.OptionalDecodeCanonical` | src/optional.rs:139-155 | with a canonical value decoder, every accepted input is the encoding of its result |
| `Optionals.OptionalEncodingVersusList` | src/optional.rs:119-128 | `None` encodes like the empty list; `Some(v)` of a fixed-size type is `0x01` then the one-element list's encoding; a variable-size value is written without the list's offset |
| `Optionals.ByteOptionalExamples` | src/optional.rs:177-186 | `Some(9u8)` is `[1, 9]`, `None` is empty, `[1, 42]` decodes to `Some(42)` and `[0, 42]` is refused |
| `Optionals.TreeHashRoot` | src/optional.rs:92-101 | the data root with the number of present values, 0 or 1, mixed in |

## Left out

- Hashing: SHA-256, the Merkle tree builder, `mix_in_length` and the zero-hash padding belong to the external `tree_hash` crate. They are uninterpreted function values.
- `TreeHash.MerkleHasher`: the external hasher's capacity is taken to be 32 bytes per leaf of the tree padded to a power of two. Its code is not part of this model.
- `SszCodec.ElemCodec`: `decode_list_of_variable_length_items` from the external `ssz` crate is abstract. `HonoursBound` and `VariableDecoderLaws` state what is assumed of it: it honours its bound, and it inverts the offset-table encoding.
- `SszCodec.OffsetBytes`: `encode_length` keeps the low four bytes of an offset. The variable-size round trips therefore require encodings shorter than 2^32 bytes.
- `optional_tree_hash_root` is not part of this model. `Optionals.TreeHashRoot` takes the data root as a parameter, and its doc comment notes that with the documented data root this is `ListRoot` of the elements. No lemma states that.
- The element types' own codecs and roots are outside the model. The lemmas that need them to round-trip, to refuse short chunks or to pack into 32 bytes take that as a precondition.
- Zero-size fixed elements: they give `ZeroLengthItem` on non-empty input, so the round-trip lemmas exclude them.
- `TypenumHelpers.ToUsize`: `N::to_usize()` on a narrow target is taken to keep the low bits of `N`, as `as` casts do. The pointer width and the `cap-typenum-to-usize-overflow` feature are parameters. Elsewhere, lengths are assumed to fit a 64-bit `usize`.
- `TreeHash.ListItemGindex`, `TreeHash.FieldGindex`, `TreeHash.NextPow2`, `TreeHash.ResolvePath`: these compute on unbounded integers. They agree with the source's `usize` arithmetic only while every intermediate value and the result are at most `usize::MAX`. Past that point the source's multiplications and additions panic in debug builds and wrap in release builds, and `next_power_of_two` overflows above 2^63. The model does not capture that behaviour.
- `VariableLists.VariableList.Push`: the error's `len + 1` is taken without a `usize` bound. Since `len <= N <= usize::MAX`, it can reach `usize::MAX + 1` only when `N` is `usize::MAX`.
- Iterators are finite sequences. The size hint only sizes the pre-allocation, whose bound `VariableLists.PreAllocation` states.
- Allocation (`with_capacity`, `reserve`) has no other observable effect and is left out.
- Panics on an index out of range become preconditions (`i < |vec|`).
- The `expect`s in the tree hashing are proved unreachable for valid containers. `RuntimeVariableList.TreeHashRoot` therefore requires a list within its bound.
- `FixedVector`'s `Default` is `from_elem(T::default())` and is covered by `FixedVectors.FixedVector.FromElem`. `VariableListU8` and `FixedVectorU8` `Default` are `empty` and `from_elem(0)`.
- Read-only accessors are the fields themselves: `len`, `max_len`, `capacity`, `is_empty`, `Deref`, `Index`, `as_slice`, `to_vec`, `into_vec`, `into_iter`, and `From` conversions.
- serde `Serialize`/`Deserialize`, `context_deserialize`, `arbitrary`, `Debug` and `Hash` impls are left out: text adapters, fuzzing and formatting.
- `BitList`/`BitVector` are re-exported from `ssz` and not implemented in this crate; so are the bitfield variants of `Error`.
- `VecTreeHashRoot` uses `ceil(N / pf)` leaves for Basic elements, not the wrapping sum `(N + pf - 1) / pf` of src/tree_hash.rs:19. The two agree whenever the sum fits in `usize` (see Findings).
- `Optionals.DecodeOptional`: the `BytesInvalid` message text is replaced by the reason `MissingOptionalPrefix`. Every other `BytesInvalid` likewise keeps the values its message is formatted from, not the text.

## Findings

| source | as written | input that shows it | evidently intended | confidence | as-written member | corrected member |
|---|---|---|---|---|---|---|
| src/tree_hash.rs:19 | the Basic leaf limit is `(N + pf - 1) / pf` in `usize`, which overflows for `N` within `pf - 1` of `usize::MAX` (it wraps in release builds and panics in debug builds) | `N = usize::MAX`, `u8` elements (`pf = 32`): the wrapped sum gives 0 leaves | `ceil(N / pf)` leaves, as the runtime variant computes with `div_ceil` (2^59 for this input) | low: only capacities near `usize::MAX` are affected; not executed | `TreeHash.LeafLimitAsWrittenOverflows` | `TreeHash.VecTreeHashRoot` |
