/** `RuntimeVariableList<T>` (src/runtime_types/runtime_variable_list.rs): a
    list whose bound `max_len` is a stored value rather than a type. Unlike
    `VariableList`, decoding does not re-check the bound, so `len <= max_len`
    is an invariant only under assumptions on the element decoders. */
module RuntimeVariableLists {
  import opened SszTypes
  import opened Arith
  import opened SszCodec
  import opened TreeHash

  /** `from_ssz_bytes(bytes, max_len)`: as for `VariableList`, except that the
      decoded elements are stored as they are, without passing through `new`. */
  function DecodeRuntime<T>(c: ElemCodec<T>, bytes: seq<Byte>, maxLen: nat): (r: Result<seq<T>, DecodeError>)
    ensures bytes == [] ==> r == Ok([])
    ensures bytes != [] && c.isFixedLen && c.fixedLen == 0 ==> r == Err(ZeroLengthItem)
    ensures bytes != [] && c.isFixedLen && c.fixedLen > 0 && |bytes| / c.fixedLen > maxLen ==>
      r == Err(BytesInvalid(TooManyItems(|bytes| / c.fixedLen, maxLen)))
  {
    if bytes == [] then Ok([])
    else if c.isFixedLen then
      if c.fixedLen == 0 then Err(ZeroLengthItem)
      else if |bytes| / c.fixedLen > maxLen then Err(BytesInvalid(TooManyItems(|bytes| / c.fixedLen, maxLen)))
      else DecodeFixedItems(c, bytes)
    else c.decodeVariableItems(bytes, maxLen)
  }

  /** The bound survives decoding when the element decoder refuses a short
      trailing chunk and the external variable-item decoder honours
      `Some(max_len)`: then the floor count is the true count. */
  lemma DecodeRuntimeBounded<T(!new)>(c: ElemCodec<T>, bytes: seq<Byte>, maxLen: nat)
    requires RejectsWrongLength(c) && HonoursBound(c)
    ensures DecodeRuntime(c, bytes, maxLen).Ok? ==> |DecodeRuntime(c, bytes, maxLen).value| <= maxLen
  {
    if bytes != [] && c.isFixedLen && c.fixedLen > 0 {
      DecodeFixedItemsCountIsFloor(c, bytes);
    }
  }

  lemma DecodeFixedItemsCountIsFloor<T(!new)>(c: ElemCodec<T>, bytes: seq<Byte>)
    requires c.isFixedLen && c.fixedLen > 0 && RejectsWrongLength(c)
    ensures DecodeFixedItems(c, bytes).Ok? ==> |DecodeFixedItems(c, bytes).value| == |bytes| / c.fixedLen
  {
    DecodeFixedItemsLength(c, bytes);
    if DecodeFixedItems(c, bytes).Ok? {
      DivUnique(|bytes|, c.fixedLen, |DecodeFixedItems(c, bytes).value|, 0);
    }
  }

  /** A two-byte element type whose decoder also accepts a single byte. */
  function LenientCodec(): ElemCodec<Byte>
  {
    ElemCodec(true, 2, x => [x, 0], x => 2, b => if b == [] then Err(InvalidByteLength(0, 2)) else Ok(b[0]),
              (b, m) => Err(InvalidByteLength(|b|, 2)))
  }

  /** Without the first assumption the bound can be broken: with `max_len = 1`
      and three input bytes the floor count is 1, yet two chunks, `[a, b]` and
      `[c]`, decode to a list of two elements. */
  lemma DecodeRuntimeNeedsStrictElements()
    ensures DecodeRuntime(LenientCodec(), [7, 0, 9], 1) == Ok([7, 9])
  {
    var c := LenientCodec();
    var bytes: seq<Byte> := [7, 0, 9];
    var tail: seq<Byte> := [9];
    assert tail[..1] == [9] && tail[1..] == [];
    assert c.decode([9]) == Ok(9);
    assert DecodeFixedItems(c, []) == Ok([]);
    assert [9] + [] == [9];
    assert DecodeFixedItems(c, tail) == Prepend([9], DecodeFixedItems(c, []));
    assert bytes[..2] == [7, 0] && bytes[2..] == tail;
    assert c.decode([7, 0]) == Ok(7);
    assert DecodeFixedItems(c, bytes) == Prepend([7], DecodeFixedItems(c, tail));
    assert [7] + [9] == [7, 9];
  }

  /** Decoding an encoded list with the list's own `max_len` gives it back,
      under the same conditions as `VariableList`'s round trip. */
  lemma DecodeRuntimeRoundTrip<T(!new)>(c: ElemCodec<T>, xs: seq<T>, maxLen: nat)
    requires Lawful(c) && (c.isFixedLen ==> c.fixedLen > 0) && (!c.isFixedLen ==> |Encode(c, xs)| < OffsetLimit)
    requires |xs| <= maxLen
    ensures DecodeRuntime(c, Encode(c, xs), maxLen) == Ok(xs)
  {
    var bytes := Encode(c, xs);
    EncodeShape(c, xs);
    if xs != [] && c.isFixedLen {
      DivUnique(|bytes|, c.fixedLen, |xs|, 0);
      DecodeFixedItemsRoundTrip(c, xs);
    }
  }

  /** A RuntimeVariableList. `max_len` never changes after construction. */
  class RuntimeVariableList<T(!new)> {
    var vec: seq<T>
    const maxLen: nat

    ghost predicate Valid()
      reads this
    {
      |vec| <= maxLen
    }

    /** `RuntimeVariableList::empty(max_len)`. */
    constructor Empty(maxLen: nat)
      ensures Valid() && vec == [] && this.maxLen == maxLen
    {
      vec := [];
      this.maxLen := maxLen;
    }

    /** The struct literal `Self { vec, max_len }`, which stores any vector. */
    constructor Build(vec: seq<T>, maxLen: nat)
      ensures this.vec == vec && this.maxLen == maxLen
    {
      this.vec := vec;
      this.maxLen := maxLen;
    }

    /** `RuntimeVariableList::new(vec, max_len)`: succeeds exactly when `vec`
        has at most `max_len` elements, and stores `max_len`. */
    static method New(vec: seq<T>, maxLen: nat) returns (r: Result<RuntimeVariableList<T>, Error>)
      ensures r.Ok? <==> |vec| <= maxLen
      ensures r.Ok? ==> fresh(r.value) && r.value.Valid() && r.value.vec == vec && r.value.maxLen == maxLen
      ensures r.Err? ==> r.error == OutOfBounds(|vec|, maxLen)
    {
      if |vec| <= maxLen {
        var l := new RuntimeVariableList.Build(vec, maxLen);
        return Ok(l);
      } else {
        return Err(OutOfBounds(|vec|, maxLen));
      }
    }

    /** `push`: appends below `max_len`; otherwise reports
        `len.saturating_add(1)` and leaves the list as it was. This holds for
        any state, including one decoding left above its bound. */
    method Push(value: T) returns (r: Result<(), Error>)
      modifies this
      ensures old(Valid()) ==> Valid()
      ensures r.Ok? <==> |old(vec)| < maxLen
      ensures r.Ok? ==> vec == old(vec) + [value]
      ensures r.Err? ==> vec == old(vec)
      ensures r.Err? ==> r.error == OutOfBounds(if |old(vec)| < UsizeMax then |old(vec)| + 1 else UsizeMax, maxLen)
    {
      if |vec| < maxLen {
        vec := vec + [value];
        r := Ok(());
      } else {
        var i := if |vec| < UsizeMax then |vec| + 1 else UsizeMax;
        r := Err(OutOfBounds(i, maxLen));
      }
    }

    /** A write through `IndexMut` or `as_mut_slice`: only element `i` changes. */
    method Set(i: nat, value: T)
      requires i < |vec|
      modifies this
      ensures vec == old(vec)[i := value]
    {
      vec := vec[i := value];
    }

    /** `ssz_append`, delegated to the encoding of the underlying `Vec<T>`. */
    method SszAppend(c: ElemCodec<T>, buf: ByteBuffer)
      modifies buf
      ensures buf.bytes == old(buf.bytes) + Encode(c, vec)
    {
      SszAppendItems(c, vec, buf);
    }

    /** `ssz_bytes_len`: the length of what `ssz_append` writes. */
    function SszBytesLen(c: ElemCodec<T>): (r: nat)
      requires SizesConsistent(c)
      reads this
      ensures r == |Encode(c, vec)|
    {
      SszBytesLenIsEncodedLength(c, vec);
      SszCodec.SszBytesLen(c, vec)
    }

    /** `from_ssz_bytes(bytes, max_len)`, with the chunk loop run by
        `DecodeChunks`. The result always carries the given `max_len`. */
    static method FromSszBytes(c: ElemCodec<T>, bytes: seq<Byte>, maxLen: nat) returns (r: Result<RuntimeVariableList<T>, DecodeError>)
      ensures r.Ok? <==> DecodeRuntime(c, bytes, maxLen).Ok?
      ensures r.Ok? ==> fresh(r.value) && r.value.vec == DecodeRuntime(c, bytes, maxLen).value && r.value.maxLen == maxLen
      ensures r.Err? ==> r.error == DecodeRuntime(c, bytes, maxLen).error
    {
      var vec: seq<T>;
      if bytes == [] {
        vec := [];
      } else if c.isFixedLen {
        if c.fixedLen == 0 {
          return Err(ZeroLengthItem);
        }
        var numItems := |bytes| / c.fixedLen;
        if numItems > maxLen {
          return Err(BytesInvalid(TooManyItems(numItems, maxLen)));
        }
        var items := DecodeChunks(c, bytes);
        if items.Err? {
          return Err(items.error);
        }
        vec := items.value;
      } else {
        var items := c.decodeVariableItems(bytes, maxLen);
        if items.Err? {
          return Err(items.error);
        }
        vec := items.value;
      }
      var l := new RuntimeVariableList.Build(vec, maxLen);
      return Ok(l);
    }

    /** `tree_hash_root`: `runtime_vec_tree_hash_root` over `max_len`
        elements' worth of leaves (`div_ceil(max_len, packing_factor)` for
        Basic elements), with the length mixed in. A list above its bound
        would make the hasher's `expect` panic, hence the precondition. */
    method TreeHashRoot(k: HashKind<T>, h: HashFunctions) returns (root: Hash256)
      requires Valid() && WellFormed(k)
      ensures root == ListRoot(k, h, vec, maxLen)
    {
      var dataRoot := VecTreeHashRoot(k, h.merkleize, vec, maxLen);
      root := h.mixInLength(dataRoot, |vec|);
    }
  }
}
