/** `FixedVectorU8<N>` (src/fixed_vector_u8.rs): a byte vector that wraps a
    `FixedVector<u8, N>`. Construction and tree hashing delegate to it; the
    codec works on the raw bytes directly. */
module FixedVectorsU8 {
  import opened SszTypes
  import opened Arith
  import opened SszCodec
  import opened TreeHash
  import opened FixedVectors

  /** `from_ssz_bytes`: `FixedVector::new` applied to the input bytes, its
      error wrapped in `BytesInvalid`. */
  function DecodeByteVector(bytes: seq<Byte>, capacity: nat): (r: Result<seq<Byte>, DecodeError>)
    ensures r.Ok? <==> |bytes| == capacity
    ensures r.Ok? ==> r.value == bytes
    ensures r.Err? ==> r.error == BytesInvalid(LengthCheckFailed(OutOfBounds(|bytes|, capacity)))
  {
    if |bytes| == capacity then Ok(bytes)
    else Err(BytesInvalid(LengthCheckFailed(OutOfBounds(|bytes|, capacity))))
  }

  /** On non-empty input this decoder accepts exactly what
      `FixedVector<u8, N>`'s decoder accepts, with the same result. On empty
      input with `N = 0` it succeeds where `FixedVector<u8, 0>` refuses. */
  lemma DecodeByteVectorMatchesFixedVector(bytes: seq<Byte>, capacity: nat)
    ensures bytes != [] ==>
      && (DecodeByteVector(bytes, capacity).Ok? <==> DecodeVector(U8Codec(), bytes, capacity).Ok?)
      && (DecodeByteVector(bytes, capacity).Ok? ==> DecodeByteVector(bytes, capacity) == DecodeVector(U8Codec(), bytes, capacity))
    ensures DecodeByteVector([], 0) == Ok([])
    ensures DecodeVector(U8Codec(), [], 0) == Err(InvalidByteLength(0, 1))
  {
    if bytes != [] {
      U8CodecLawful();
      U8EncodeIsRaw(bytes);
      DivUnique(|bytes|, 1, |bytes|, 0);
      DecodeFixedItemsRoundTrip(U8Codec(), bytes);
    }
  }

  /** The encoding is the raw bytes, as long as `ssz_fixed_len` says and equal
      to `FixedVector<u8, N>`'s; it decodes back for every `N`, including 0. */
  lemma ByteVectorRoundTrip(bytes: seq<Byte>, capacity: nat)
    requires |bytes| == capacity
    ensures Encode(U8Codec(), bytes) == bytes
    ensures SszFixedLen(U8Codec(), capacity) == capacity
    ensures DecodeByteVector(Encode(U8Codec(), bytes), capacity) == Ok(bytes)
  {
    U8EncodeIsRaw(bytes);
  }

  /** A FixedVectorU8 of exactly `capacity` bytes. */
  class FixedVectorU8 {
    const inner: FixedVector<Byte>

    ghost predicate Valid()
      reads this, inner
    {
      inner.Valid()
    }

    /** `FixedVectorU8::from_elem` (and `Default`, with 0): `N` copies of `elem`. */
    constructor FromElem(elem: Byte, capacity: nat)
      ensures Valid() && fresh(inner) && inner.capacity == capacity
      ensures forall i :: 0 <= i < capacity ==> inner.vec[i] == elem
    {
      inner := new FixedVector.FromElem(elem, capacity);
    }

    constructor Wrap(inner: FixedVector<Byte>)
      ensures this.inner == inner
    {
      this.inner := inner;
    }

    /** `FixedVectorU8::new`: the result and the error of
        `FixedVector::<u8, N>::new`. */
    static method New(vec: seq<Byte>, capacity: nat) returns (r: Result<FixedVectorU8, Error>)
      ensures r.Ok? <==> |vec| == capacity
      ensures r.Ok? ==> fresh(r.value) && fresh(r.value.inner) && r.value.Valid() && r.value.inner.vec == vec && r.value.inner.capacity == capacity
      ensures r.Err? ==> r.error == OutOfBounds(|vec|, capacity)
    {
      var made := FixedVector.New(vec, capacity);
      if made.Err? {
        return Err(made.error);
      }
      var v := new FixedVectorU8.Wrap(made.value);
      return Ok(v);
    }

    /** A write through `IndexMut`/`DerefMut`, delegated. */
    method Set(i: nat, value: Byte)
      requires Valid() && i < |inner.vec|
      modifies inner
      ensures Valid()
      ensures inner.vec == old(inner.vec)[i := value]
    {
      inner.Set(i, value);
    }

    /** `try_from_iter`, delegated to `FixedVector`'s bail-out rule. */
    static method TryFromIter(items: seq<Byte>, sizeHint: Option<nat>, capacity: nat) returns (r: Result<FixedVectorU8, Error>)
      ensures r.Ok? <==> |items| == capacity
      ensures r.Ok? ==> fresh(r.value) && fresh(r.value.inner) && r.value.Valid() && r.value.inner.vec == items && r.value.inner.capacity == capacity
      ensures r.Err? ==> r.error == OutOfBounds(if |items| > capacity then capacity else |items|, capacity)
    {
      var made := FixedVector.TryFromIter(items, sizeHint, capacity);
      if made.Err? {
        return Err(made.error);
      }
      var v := new FixedVectorU8.Wrap(made.value);
      return Ok(v);
    }

    /** `ssz_append`: `extend_from_slice` of the stored bytes, which is the
        encoding `FixedVector<u8, N>` would write. */
    method SszAppend(buf: ByteBuffer)
      modifies buf
      ensures buf.bytes == old(buf.bytes) + inner.vec
      ensures buf.bytes == old(buf.bytes) + Encode(U8Codec(), inner.vec)
    {
      buf.bytes := buf.bytes + inner.vec;
      U8EncodeIsRaw(inner.vec);
    }

    /** `ssz_bytes_len` is `len`, the length of the encoding, and for a valid
        vector `ssz_fixed_len`, which is `N`. */
    function SszBytesLen(): (r: nat)
      reads this, inner
      ensures r == |Encode(U8Codec(), inner.vec)|
      ensures Valid() ==> r == inner.capacity
    {
      U8EncodeIsRaw(inner.vec);
      |inner.vec|
    }

    /** `from_ssz_bytes`: `FixedVector::new(bytes)`, with a wrapped error. */
    static method FromSszBytes(bytes: seq<Byte>, capacity: nat) returns (r: Result<FixedVectorU8, DecodeError>)
      ensures r.Ok? <==> DecodeByteVector(bytes, capacity).Ok?
      ensures r.Ok? ==> fresh(r.value) && fresh(r.value.inner) && r.value.Valid() && r.value.inner.vec == bytes && r.value.inner.capacity == capacity
      ensures r.Err? ==> r.error == DecodeByteVector(bytes, capacity).error
    {
      var made := FixedVector.New(bytes, capacity);
      if made.Err? {
        return Err(BytesInvalid(LengthCheckFailed(made.error)));
      }
      var v := new FixedVectorU8.Wrap(made.value);
      return Ok(v);
    }

    /** `tree_hash_root`: the bytes packed 32 to a leaf over `ceil(N / 32)`
        leaves, no length mixed in; the same root as `FixedVector<u8, N>`. */
    method TreeHashRoot(h: HashFunctions) returns (root: Hash256)
      requires Valid()
      ensures root == VectorRoot(U8HashKind(), h, inner.vec, inner.capacity)
      ensures root == h.merkleize(inner.vec, CeilDiv(inner.capacity, 32))
    {
      U8LeafBytes(inner.vec, inner.capacity);
      root := VecTreeHashRoot(U8HashKind(), h.merkleize, inner.vec, inner.capacity);
    }
  }
}
