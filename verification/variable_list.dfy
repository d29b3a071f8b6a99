/** `VariableList<T, N>` (src/variable_list.rs): an SSZ List, a sequence of at
    most `N` values. The type-level `N` is the immutable field `maxLen`. */
module VariableLists {
  import opened SszTypes
  import opened Arith
  import opened SszCodec
  import opened TreeHash

  /** `MAX_ELEMENTS_TO_PRE_ALLOCATE`: 128 Ki elements. */
  const MaxElementsToPreAllocate: nat := 128 * 1024

  /** A list is never fixed-size (`Vec<T>::is_ssz_fixed_len`); inside a
      container it occupies one offset (`Vec<T>::ssz_fixed_len`). */
  const ListIsFixedLen: bool := false
  const ListFixedLen: nat := BytesPerLengthOffset

  /** The capacity `try_from_iter` reserves: `N` clamped to
      `MAX_ELEMENTS_TO_PRE_ALLOCATE`, then to the iterator's upper size hint
      when it has one. It never exceeds any of the three. */
  function PreAllocation(maxLen: nat, sizeHint: Option<nat>): (r: nat)
    ensures r <= MaxElementsToPreAllocate && r <= maxLen
    ensures sizeHint.Some? ==> r <= sizeHint.value
    ensures r == MaxElementsToPreAllocate || r == maxLen || (sizeHint.Some? && r == sizeHint.value)
  {
    var clamped := if MaxElementsToPreAllocate < maxLen then MaxElementsToPreAllocate else maxLen;
    match sizeHint
    case None => clamped
    case Some(hint) => if clamped < hint then clamped else hint
  }

  /** `from_ssz_bytes`: empty input is the empty list; fixed-size elements
      are counted, bounded and decoded chunk by chunk; variable-size ones go
      to the external offset decoder with bound `N`; the result is checked by
      `new` once more. */
  function DecodeList<T>(c: ElemCodec<T>, bytes: seq<Byte>, maxLen: nat): (r: Result<seq<T>, DecodeError>)
    ensures r.Ok? ==> |r.value| <= maxLen
    ensures bytes == [] ==> r == Ok([])
    ensures bytes != [] && c.isFixedLen && c.fixedLen == 0 ==> r == Err(ZeroLengthItem)
    ensures bytes != [] && c.isFixedLen && c.fixedLen > 0 && |bytes| / c.fixedLen > maxLen ==>
      r == Err(BytesInvalid(TooManyItems(|bytes| / c.fixedLen, maxLen)))
  {
    if bytes == [] then Ok([])
    else
      var items :=
        if c.isFixedLen then
          if c.fixedLen == 0 then Err(ZeroLengthItem)
          else if |bytes| / c.fixedLen > maxLen then Err(BytesInvalid(TooManyItems(|bytes| / c.fixedLen, maxLen)))
          else DecodeFixedItems(c, bytes)
        else c.decodeVariableItems(bytes, maxLen);
      match items
      case Err(e) => Err(e)
      case Ok(xs) =>
        if |xs| <= maxLen then Ok(xs) else Err(BytesInvalid(LengthCheckFailed(OutOfBounds(|xs|, maxLen))))
  }

  /** Decoding an encoded list gives it back, whenever the element codec is
      lawful, fixed-size elements are not zero-sized, and the offsets of a
      variable-size encoding fit in four bytes. In particular the empty list
      encodes to no bytes and decodes from them. */
  lemma DecodeListRoundTrip<T(!new)>(c: ElemCodec<T>, xs: seq<T>, maxLen: nat)
    requires Lawful(c) && (c.isFixedLen ==> c.fixedLen > 0) && (!c.isFixedLen ==> |Encode(c, xs)| < OffsetLimit)
    requires |xs| <= maxLen
    ensures DecodeList(c, Encode(c, xs), maxLen) == Ok(xs)
  {
    var bytes := Encode(c, xs);
    EncodeShape(c, xs);
    if xs != [] && c.isFixedLen {
      var k := c.fixedLen;
      DivUnique(|bytes|, k, |xs|, 0);
      DecodeFixedItemsRoundTrip(c, xs);
    }
  }

  /** A VariableList of at most `maxLen` elements. */
  class VariableList<T(!new)> {
    var vec: seq<T>
    const maxLen: nat

    ghost predicate Valid()
      reads this
    {
      |vec| <= maxLen
    }

    /** `VariableList::empty` (and `Default`). */
    constructor Empty(maxLen: nat)
      ensures Valid() && vec == [] && this.maxLen == maxLen
    {
      vec := [];
      this.maxLen := maxLen;
    }

    /** `VariableList::repeat_full`: exactly `N` copies of `elem`, the same
        list `new` builds from them. */
    constructor RepeatFull(elem: T, maxLen: nat)
      ensures Valid() && |vec| == maxLen && this.maxLen == maxLen
      ensures forall i :: 0 <= i < maxLen ==> vec[i] == elem
    {
      vec := seq(maxLen, _ => elem);
      this.maxLen := maxLen;
    }

    /** `VariableList::new`: succeeds exactly when `vec` has at most `N`
        elements, keeping them in order. */
    static method New(vec: seq<T>, maxLen: nat) returns (r: Result<VariableList<T>, Error>)
      ensures r.Ok? <==> |vec| <= maxLen
      ensures r.Ok? ==> fresh(r.value) && r.value.Valid() && r.value.vec == vec && r.value.maxLen == maxLen
      ensures r.Err? ==> r.error == OutOfBounds(|vec|, maxLen)
    {
      if |vec| <= maxLen {
        var l := new VariableList.Empty(maxLen);
        l.vec := vec;
        return Ok(l);
      } else {
        return Err(OutOfBounds(|vec|, maxLen));
      }
    }

    /** `push`: appends below capacity; at capacity it reports the length the
        list would have had and leaves the list as it was. */
    method Push(value: T) returns (r: Result<(), Error>)
      requires Valid()
      modifies this
      ensures Valid()
      ensures r.Ok? <==> |old(vec)| < maxLen
      ensures r.Ok? ==> vec == old(vec) + [value]
      ensures r.Err? ==> r.error == OutOfBounds(|old(vec)| + 1, maxLen) && vec == old(vec)
    {
      if |vec| < maxLen {
        vec := vec + [value];
        r := Ok(());
      } else {
        r := Err(OutOfBounds(|vec| + 1, maxLen));
      }
    }

    /** A write through `IndexMut`/`DerefMut`: only element `i` changes; an
        index out of range panics in the source. */
    method Set(i: nat, value: T)
      requires Valid() && i < |vec|
      modifies this
      ensures Valid()
      ensures vec == old(vec)[i := value]
    {
      vec := vec[i := value];
    }

    /** `try_from_iter`: an empty list is created and every item pushed in
        turn, so the first item beyond `N` fails with `OutOfBounds { i: N + 1,
        len: N }`. On success the list is the one `new` builds from all the
        items. */
    static method TryFromIter(items: seq<T>, sizeHint: Option<nat>, maxLen: nat) returns (r: Result<VariableList<T>, Error>)
      ensures r.Ok? <==> |items| <= maxLen
      ensures r.Ok? ==> fresh(r.value) && r.value.Valid() && r.value.vec == items && r.value.maxLen == maxLen
      ensures r.Err? ==> r.error == OutOfBounds(maxLen + 1, maxLen)
    {
      var made := New([], maxLen);
      assert made.Ok?;
      var l := made.value;
      for i := 0 to |items|
        invariant fresh(l) && l.Valid() && l.vec == items[..i] && l.maxLen == maxLen
      {
        var pushed := l.Push(items[i]);
        if pushed.Err? {
          return Err(pushed.error);
        }
        assert items[..i + 1] == items[..i] + [items[i]];
      }
      assert items[..|items|] == items;
      return Ok(l);
    }

    /** `ssz_append`, delegated to the encoding of the underlying `Vec<T>`. */
    method SszAppend(c: ElemCodec<T>, buf: ByteBuffer)
      modifies buf
      ensures buf.bytes == old(buf.bytes) + Encode(c, vec)
    {
      SszAppendItems(c, vec, buf);
    }

    /** `ssz_bytes_len`: the length of what `ssz_append` writes. */
    function SszBytesLen(c: ElemCodec<T>): (r: nat)
      requires SizesConsistent(c)
      reads this
      ensures r == |Encode(c, vec)|
    {
      SszBytesLenIsEncodedLength(c, vec);
      SszCodec.SszBytesLen(c, vec)
    }

    /** `from_ssz_bytes`, with the chunk loop run by `DecodeChunks`. */
    static method FromSszBytes(c: ElemCodec<T>, bytes: seq<Byte>, maxLen: nat) returns (r: Result<VariableList<T>, DecodeError>)
      ensures r.Ok? <==> DecodeList(c, bytes, maxLen).Ok?
      ensures r.Ok? ==> fresh(r.value) && r.value.Valid() && r.value.vec == DecodeList(c, bytes, maxLen).value && r.value.maxLen == maxLen
      ensures r.Err? ==> r.error == DecodeList(c, bytes, maxLen).error
    {
      if bytes == [] {
        var l := new VariableList.Empty(maxLen);
        return Ok(l);
      }
      var items: Result<seq<T>, DecodeError>;
      if c.isFixedLen {
        if c.fixedLen == 0 {
          return Err(ZeroLengthItem);
        }
        var numItems := |bytes| / c.fixedLen;
        if numItems > maxLen {
          return Err(BytesInvalid(TooManyItems(numItems, maxLen)));
        }
        items := DecodeChunks(c, bytes);
      } else {
        items := c.decodeVariableItems(bytes, maxLen);
      }
      if items.Err? {
        return Err(items.error);
      }
      var made := New(items.value, maxLen);
      if made.Err? {
        return Err(BytesInvalid(LengthCheckFailed(made.error)));
      }
      return Ok(made.value);
    }

    /** `tree_hash_root`: the data root over `N` elements' worth of leaves,
        with the length mixed in. */
    method TreeHashRoot(k: HashKind<T>, h: HashFunctions) returns (root: Hash256)
      requires Valid() && WellFormed(k)
      ensures root == ListRoot(k, h, vec, maxLen)
    {
      var dataRoot := VecTreeHashRoot(k, h.merkleize, vec, maxLen);
      root := h.mixInLength(dataRoot, |vec|);
    }
  }
}
