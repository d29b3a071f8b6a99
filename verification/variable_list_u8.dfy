/** `VariableListU8<N>` (src/variable_list_u8.rs): a byte list that wraps a
    `VariableList<u8, N>` and delegates every operation to it. */
module VariableListsU8 {
  import opened SszTypes
  import opened Arith
  import opened SszCodec
  import opened TreeHash
  import opened VariableLists

  /** A byte list decodes to itself exactly when it has at most `N` bytes;
      longer input is refused by the item count. */
  lemma DecodeByteList(bytes: seq<Byte>, maxLen: nat)
    ensures DecodeList(U8Codec(), bytes, maxLen) ==
      if |bytes| <= maxLen then Ok(bytes) else Err(BytesInvalid(TooManyItems(|bytes|, maxLen)))
  {
    U8CodecLawful();
    U8EncodeIsRaw(bytes);
    if bytes != [] {
      DivUnique(|bytes|, 1, |bytes|, 0);
      if |bytes| <= maxLen {
        DecodeFixedItemsRoundTrip(U8Codec(), bytes);
      }
    }
  }

  /** The encoding is the raw bytes, its length is the list length, and it
      decodes back to the same list. */
  lemma ByteListRoundTrip(bytes: seq<Byte>, maxLen: nat)
    requires |bytes| <= maxLen
    ensures Encode(U8Codec(), bytes) == bytes
    ensures SszCodec.SszBytesLen(U8Codec(), bytes) == |bytes|
    ensures DecodeList(U8Codec(), Encode(U8Codec(), bytes), maxLen) == Ok(bytes)
  {
    U8EncodeIsRaw(bytes);
    DecodeByteList(bytes, maxLen);
  }

  /** A VariableListU8 of at most `maxLen` bytes. */
  class VariableListU8 {
    const inner: VariableList<Byte>

    ghost predicate Valid()
      reads this, inner
    {
      inner.Valid()
    }

    /** `VariableListU8::empty` (and `Default`). */
    constructor Empty(maxLen: nat)
      ensures Valid() && fresh(inner) && inner.vec == [] && inner.maxLen == maxLen
    {
      inner := new VariableList.Empty(maxLen);
    }

    constructor Wrap(inner: VariableList<Byte>)
      ensures this.inner == inner
    {
      this.inner := inner;
    }

    /** `VariableListU8::new`: the result and the error of
        `VariableList::<u8, N>::new`. */
    static method New(vec: seq<Byte>, maxLen: nat) returns (r: Result<VariableListU8, Error>)
      ensures r.Ok? <==> |vec| <= maxLen
      ensures r.Ok? ==> fresh(r.value) && fresh(r.value.inner) && r.value.Valid() && r.value.inner.vec == vec && r.value.inner.maxLen == maxLen
      ensures r.Err? ==> r.error == OutOfBounds(|vec|, maxLen)
    {
      var made := VariableList.New(vec, maxLen);
      if made.Err? {
        return Err(made.error);
      }
      var l := new VariableListU8.Wrap(made.value);
      return Ok(l);
    }

    /** `push`, delegated: appends below `N`, otherwise reports
        `OutOfBounds { i: len + 1, len: N }` and changes nothing. */
    method Push(value: Byte) returns (r: Result<(), Error>)
      requires Valid()
      modifies inner
      ensures Valid()
      ensures r.Ok? <==> |old(inner.vec)| < inner.maxLen
      ensures r.Ok? ==> inner.vec == old(inner.vec) + [value]
      ensures r.Err? ==> r.error == OutOfBounds(|old(inner.vec)| + 1, inner.maxLen) && inner.vec == old(inner.vec)
    {
      r := inner.Push(value);
    }

    /** A write through `IndexMut`/`DerefMut`, delegated. */
    method Set(i: nat, value: Byte)
      requires Valid() && i < |inner.vec|
      modifies inner
      ensures Valid()
      ensures inner.vec == old(inner.vec)[i := value]
    {
      inner.Set(i, value);
    }

    /** `try_from_iter`, delegated to `VariableList`'s. */
    static method TryFromIter(items: seq<Byte>, sizeHint: Option<nat>, maxLen: nat) returns (r: Result<VariableListU8, Error>)
      ensures r.Ok? <==> |items| <= maxLen
      ensures r.Ok? ==> fresh(r.value) && fresh(r.value.inner) && r.value.Valid() && r.value.inner.vec == items && r.value.inner.maxLen == maxLen
      ensures r.Err? ==> r.error == OutOfBounds(maxLen + 1, maxLen)
    {
      var made := VariableList.TryFromIter(items, sizeHint, maxLen);
      if made.Err? {
        return Err(made.error);
      }
      var l := new VariableListU8.Wrap(made.value);
      return Ok(l);
    }

    /** `ssz_append`, delegated: the raw bytes. */
    method SszAppend(buf: ByteBuffer)
      modifies buf
      ensures buf.bytes == old(buf.bytes) + inner.vec
    {
      inner.SszAppend(U8Codec(), buf);
      U8EncodeIsRaw(inner.vec);
    }

    /** `ssz_bytes_len`, delegated: the number of bytes held. */
    function SszBytesLen(): (r: nat)
      reads this, inner
      ensures r == |inner.vec|
    {
      U8CodecLawful();
      U8EncodeIsRaw(inner.vec);
      inner.SszBytesLen(U8Codec())
    }

    /** `from_ssz_bytes`, delegated to `VariableList<u8, N>`'s: the input is
        the list itself when it has at most `N` bytes. */
    static method FromSszBytes(bytes: seq<Byte>, maxLen: nat) returns (r: Result<VariableListU8, DecodeError>)
      ensures r.Ok? <==> |bytes| <= maxLen
      ensures r.Ok? ==> fresh(r.value) && fresh(r.value.inner) && r.value.Valid() && r.value.inner.vec == bytes && r.value.inner.maxLen == maxLen
      ensures r.Err? ==> r.error == BytesInvalid(TooManyItems(|bytes|, maxLen))
    {
      DecodeByteList(bytes, maxLen);
      var made := VariableList.FromSszBytes(U8Codec(), bytes, maxLen);
      if made.Err? {
        return Err(made.error);
      }
      var l := new VariableListU8.Wrap(made.value);
      return Ok(l);
    }

    /** `tree_hash_root`: the bytes themselves packed 32 to a leaf, over
        `ceil(N / 32)` leaves, with the length mixed in; the same root as
        `VariableList<u8, N>`. */
    method TreeHashRoot(h: HashFunctions) returns (root: Hash256)
      requires Valid()
      ensures root == ListRoot(U8HashKind(), h, inner.vec, inner.maxLen)
      ensures root == h.mixInLength(h.merkleize(inner.vec, CeilDiv(inner.maxLen, 32)), |inner.vec|)
    {
      U8LeafBytes(inner.vec, inner.maxLen);
      var dataRoot := VecTreeHashRoot(U8HashKind(), h.merkleize, inner.vec, inner.maxLen);
      root := h.mixInLength(dataRoot, |inner.vec|);
    }
  }
}
