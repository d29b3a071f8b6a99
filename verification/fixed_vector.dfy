/** `FixedVector<T, N>` (src/fixed_vector.rs): an SSZ Vector, a sequence of
    exactly `N` values. The type-level `N` is the immutable field `capacity`. */
module FixedVectors {
  import opened SszTypes
  import opened Arith
  import opened SszCodec
  import opened TreeHash

  /** `ssz_fixed_len`: `size(T) * N` for fixed-size elements, else the width of
      one offset. */
  function SszFixedLen<T>(c: ElemCodec<T>, capacity: nat): nat
  {
    if c.isFixedLen then c.fixedLen * capacity else BytesPerLengthOffset
  }

  /** A vector of fixed-size elements encodes to exactly `ssz_fixed_len` bytes,
      so the vector is itself fixed-size exactly when its element type is. */
  lemma SszFixedLenIsEncodedLength<T(!new)>(c: ElemCodec<T>, xs: seq<T>, capacity: nat)
    requires SizesConsistent(c) && c.isFixedLen && |xs| == capacity
    ensures |Encode(c, xs)| == SszFixedLen(c, capacity)
  {
    EncodeShape(c, xs);
  }

  /** `from_ssz_bytes`: empty input is refused even when `N` is 0; fixed-size
      elements must number exactly `N` by the floor count and are then
      decoded chunk by chunk; variable-size ones go to the external offset
      decoder with bound `N`; either way the result passes through `new`. */
  function DecodeVector<T>(c: ElemCodec<T>, bytes: seq<Byte>, capacity: nat): (r: Result<seq<T>, DecodeError>)
    ensures r.Ok? ==> |r.value| == capacity
    ensures bytes == [] ==> r == Err(InvalidByteLength(0, 1))
    ensures bytes != [] && c.isFixedLen && c.fixedLen == 0 ==> r == Err(ZeroLengthItem)
    ensures bytes != [] && c.isFixedLen && c.fixedLen > 0 && |bytes| / c.fixedLen != capacity ==>
      r == Err(BytesInvalid(WrongItemCount(|bytes| / c.fixedLen, capacity)))
  {
    if bytes == [] then Err(InvalidByteLength(0, 1))
    else
      var items :=
        if c.isFixedLen then
          if c.fixedLen == 0 then Err(ZeroLengthItem)
          else if |bytes| / c.fixedLen != capacity then Err(BytesInvalid(WrongItemCount(|bytes| / c.fixedLen, capacity)))
          else DecodeFixedItems(c, bytes)
        else c.decodeVariableItems(bytes, capacity);
      match items
      case Err(e) => Err(e)
      case Ok(xs) =>
        if |xs| == capacity then Ok(xs) else Err(BytesInvalid(LengthCheckFailed(OutOfBounds(|xs|, capacity))))
  }

  /** For fixed-size elements, the only byte length that decodes is
      `size(T) * N`: the floor count admits up to `size(T) - 1` extra bytes,
      but they would form one more (short) chunk, which `new` then refuses.
      This holds whatever the element decoder does with a short chunk. */
  lemma DecodeVectorExactLength<T>(c: ElemCodec<T>, bytes: seq<Byte>, capacity: nat)
    requires c.isFixedLen && c.fixedLen > 0
    ensures DecodeVector(c, bytes, capacity).Ok? ==> |bytes| == c.fixedLen * capacity
  {
    var k := c.fixedLen;
    if DecodeVector(c, bytes, capacity).Ok? {
      DecodeFixedItemsChunkCount(c, bytes);
      assert CeilDiv(|bytes|, k) == capacity;
      assert |bytes| == (|bytes| / k) * k + |bytes| % k;
      assert |bytes| / k == capacity;
    }
  }

  /** Decoding an encoded vector gives it back when `N > 0`, the element codec
      is lawful, fixed-size elements are not zero-sized and the offsets of a
      variable-size encoding fit in four bytes. */
  lemma DecodeVectorRoundTrip<T(!new)>(c: ElemCodec<T>, xs: seq<T>, capacity: nat)
    requires Lawful(c) && (c.isFixedLen ==> c.fixedLen > 0) && (!c.isFixedLen ==> |Encode(c, xs)| < OffsetLimit)
    requires |xs| == capacity && capacity > 0
    ensures DecodeVector(c, Encode(c, xs), capacity) == Ok(xs)
  {
    var bytes := Encode(c, xs);
    EncodeShape(c, xs);
    if c.isFixedLen {
      DivUnique(|bytes|, c.fixedLen, |xs|, 0);
      DecodeFixedItemsRoundTrip(c, xs);
    }
  }

  /** With `N = 0` the round trip fails: the empty vector encodes to no bytes,
      and empty input is refused. */
  lemma EmptyVectorDoesNotRoundTrip<T(!new)>(c: ElemCodec<T>)
    requires SizesConsistent(c)
    ensures Encode(c, []) == []
    ensures DecodeVector(c, Encode(c, []), 0) == Err(InvalidByteLength(0, 1))
  {
    EncodeShape(c, []);
  }

  /** A FixedVector of exactly `capacity` elements. */
  class FixedVector<T(!new)> {
    var vec: seq<T>
    const capacity: nat

    ghost predicate Valid()
      reads this
    {
      |vec| == capacity
    }

    /** `FixedVector::from_elem`: `N` copies of `elem`. `Default` is this with
        `T::default()`. */
    constructor FromElem(elem: T, capacity: nat)
      ensures Valid() && this.capacity == capacity
      ensures forall i :: 0 <= i < capacity ==> vec[i] == elem
    {
      vec := seq(capacity, _ => elem);
      this.capacity := capacity;
    }

    /** `FixedVector::new`: succeeds exactly when `vec` has `N` elements; too
        short and too long both report the actual length. */
    static method New(vec: seq<T>, capacity: nat) returns (r: Result<FixedVector<T>, Error>)
      ensures r.Ok? <==> |vec| == capacity
      ensures r.Ok? ==> fresh(r.value) && r.value.Valid() && r.value.vec == vec && r.value.capacity == capacity
      ensures r.Err? ==> r.error == OutOfBounds(|vec|, capacity)
    {
      if |vec| == capacity {
        var v := new FixedVector.Build(vec, capacity);
        return Ok(v);
      } else {
        return Err(OutOfBounds(|vec|, capacity));
      }
    }

    /** The struct literal `Self { vec, .. }` behind `new`. */
    constructor Build(vec: seq<T>, capacity: nat)
      requires |vec| == capacity
      ensures Valid() && this.vec == vec && this.capacity == capacity
    {
      this.vec := vec;
      this.capacity := capacity;
    }

    /** A write through `IndexMut`/`DerefMut`: only element `i` changes, so the
        length stays `N`. */
    method Set(i: nat, value: T)
      requires Valid() && i < |vec|
      modifies this
      ensures Valid()
      ensures vec == old(vec)[i := value]
    {
      vec := vec[i := value];
    }

    /** `try_from_iter`: items are collected until one would be the `N + 1`-th,
        which bails out with `OutOfBounds { i: N, len: N }`; otherwise the
        collected items go through `new`, so too few report their count. */
    static method TryFromIter(items: seq<T>, sizeHint: Option<nat>, capacity: nat) returns (r: Result<FixedVector<T>, Error>)
      ensures r.Ok? <==> |items| == capacity
      ensures r.Ok? ==> fresh(r.value) && r.value.Valid() && r.value.vec == items && r.value.capacity == capacity
      ensures r.Err? ==> r.error == OutOfBounds(if |items| > capacity then capacity else |items|, capacity)
    {
      var collected: seq<T> := [];
      for i := 0 to |items|
        invariant collected == items[..i] && i <= capacity
      {
        if |collected| >= capacity {
          return Err(OutOfBounds(|collected|, capacity));
        }
        collected := collected + [items[i]];
        assert items[..i + 1] == items[..i] + [items[i]];
      }
      assert items[..|items|] == items;
      r := New(collected, capacity);
    }

    /** `ssz_append`: the element encodings in order, behind an offset table
        when the elements have variable size. */
    method SszAppend(c: ElemCodec<T>, buf: ByteBuffer)
      modifies buf
      ensures buf.bytes == old(buf.bytes) + Encode(c, vec)
    {
      SszAppendItems(c, vec, buf);
    }

    /** `ssz_bytes_len`: the length of what `ssz_append` writes. */
    function SszBytesLen(c: ElemCodec<T>): (r: nat)
      requires SizesConsistent(c)
      reads this
      ensures r == |Encode(c, vec)|
      ensures c.isFixedLen && Valid() ==> r == SszFixedLen(c, capacity)
    {
      SszBytesLenIsEncodedLength(c, vec);
      EncodeShape(c, vec);
      SszCodec.SszBytesLen(c, vec)
    }

    /** `from_ssz_bytes`, with the chunk loop run by `DecodeChunks`. */
    static method FromSszBytes(c: ElemCodec<T>, bytes: seq<Byte>, capacity: nat) returns (r: Result<FixedVector<T>, DecodeError>)
      ensures r.Ok? <==> DecodeVector(c, bytes, capacity).Ok?
      ensures r.Ok? ==> fresh(r.value) && r.value.Valid() && r.value.vec == DecodeVector(c, bytes, capacity).value && r.value.capacity == capacity
      ensures r.Err? ==> r.error == DecodeVector(c, bytes, capacity).error
    {
      if bytes == [] {
        return Err(InvalidByteLength(0, 1));
      }
      var items: Result<seq<T>, DecodeError>;
      if c.isFixedLen {
        if c.fixedLen == 0 {
          return Err(ZeroLengthItem);
        }
        var numItems := |bytes| / c.fixedLen;
        if numItems != capacity {
          return Err(BytesInvalid(WrongItemCount(numItems, capacity)));
        }
        items := DecodeChunks(c, bytes);
      } else {
        items := c.decodeVariableItems(bytes, capacity);
      }
      if items.Err? {
        return Err(items.error);
      }
      var made := New(items.value, capacity);
      if made.Err? {
        return Err(BytesInvalid(LengthCheckFailed(made.error)));
      }
      return Ok(made.value);
    }

    /** `tree_hash_root`: the data root over `N` elements' worth of leaves;
        a vector mixes in no length. */
    method TreeHashRoot(k: HashKind<T>, h: HashFunctions) returns (root: Hash256)
      requires Valid() && WellFormed(k)
      ensures root == VectorRoot(k, h, vec, capacity)
    {
      root := VecTreeHashRoot(k, h.merkleize, vec, capacity);
    }
  }
}
