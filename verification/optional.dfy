/** `Optional<T>` (src/optional.rs): the SSZ Optional of EIP-6475. `None`
    serialises to no bytes at all; `Some(v)` to the identifier byte `0x01`
    followed by the serialisation of `v`. It is merkleized as a list of at
    most one element. */
module Optionals {
  import opened SszTypes
  import opened SszCodec
  import opened TreeHash

  datatype Optional<T> = Optional(optional: Option<T>)

  /** The identifier byte in front of a present value. */
  const OptionalIdentifier: Byte := 1

  /** `is_ssz_fixed_len` (for encoding and decoding): an Optional is always
      variable-size, whatever `T` is. */
  const OptionalIsFixedLen: bool := false

  /** The elements an Optional stands for when seen as a list. */
  function Elements<T>(o: Optional<T>): (r: seq<T>)
    ensures |r| <= 1
    ensures o.optional.None? <==> r == []
    ensures o.optional.Some? ==> r == [o.optional.value]
  {
    match o.optional
    case None => []
    case Some(v) => [v]
  }

  /** What `ssz_append` writes: nothing for `None`, the identifier and the
      value's encoding for `Some`. */
  function EncodeOptional<T>(c: ElemCodec<T>, o: Optional<T>): seq<Byte>
  {
    match o.optional
    case None => []
    case Some(v) => [OptionalIdentifier] + c.encode(v)
  }

  /** `ssz_append`: appends the identifier byte, then lets the value append
      its own encoding. */
  method SszAppend<T>(c: ElemCodec<T>, o: Optional<T>, buf: ByteBuffer)
    modifies buf
    ensures buf.bytes == old(buf.bytes) + EncodeOptional(c, o)
  {
    match o.optional {
      case None =>
      case Some(v) =>
        buf.bytes := buf.bytes + [OptionalIdentifier];
        buf.bytes := buf.bytes + c.encode(v);
    }
  }

  /** `ssz_bytes_len`: 0 for `None`, one more than the value's length for
      `Some`; that is the length `ssz_append` writes. */
  function SszBytesLen<T(!new)>(c: ElemCodec<T>, o: Optional<T>): (r: nat)
    requires SizesConsistent(c)
    ensures r == |EncodeOptional(c, o)|
  {
    match o.optional
    case None => 0
    case Some(v) => c.bytesLen(v) + 1
  }

  /** `from_ssz_bytes`: no bytes is `None`; a leading `0x01` is `Some` of the
      rest, whose decoding error is passed on; any other leading byte is
      refused. */
  function DecodeOptional<T>(c: ElemCodec<T>, bytes: seq<Byte>): (r: Result<Optional<T>, DecodeError>)
    ensures r == Ok(Optional(None)) <==> bytes == []
    ensures bytes != [] && bytes[0] != OptionalIdentifier ==> r == Err(BytesInvalid(MissingOptionalPrefix))
    ensures r.Ok? && r.value.optional.Some? ==> bytes[..1] == [OptionalIdentifier] && c.decode(bytes[1..]) == Ok(r.value.optional.value)
  {
    if bytes == [] then Ok(Optional(None))
    else if bytes[0] == OptionalIdentifier then
      match c.decode(bytes[1..])
      case Ok(v) => Ok(Optional(Some(v)))
      case Err(e) => Err(e)
    else Err(BytesInvalid(MissingOptionalPrefix))
  }

  /** Every Optional decodes from its own encoding, given that values decode
      from theirs. */
  lemma OptionalRoundTrip<T(!new)>(c: ElemCodec<T>, o: Optional<T>)
    requires RoundTrips(c)
    ensures DecodeOptional(c, EncodeOptional(c, o)) == Ok(o)
  {
    match o.optional {
      case None =>
      case Some(v) =>
        var bytes := EncodeOptional(c, o);
        assert bytes[1..] == c.encode(v);
    }
  }

  /** The value decoder accepts only the encodings it would produce. */
  ghost predicate Canonical<T(!new)>(c: ElemCodec<T>)
  {
    forall b, x :: c.decode(b) == Ok(x) ==> c.encode(x) == b
  }

  /** Conversely, when the value decoder is canonical, every byte string the
      Optional decoder accepts is the encoding of what it decodes to; so the
      encoding is a bijection between Optionals and accepted inputs. */
  lemma OptionalDecodeCanonical<T(!new)>(c: ElemCodec<T>, bytes: seq<Byte>)
    requires Canonical(c)
    ensures DecodeOptional(c, bytes).Ok? ==> EncodeOptional(c, DecodeOptional(c, bytes).value) == bytes
  {
    if DecodeOptional(c, bytes).Ok? && bytes != [] {
      var v := DecodeOptional(c, bytes).value.optional.value;
      assert c.encode(v) == bytes[1..];
      assert [bytes[0]] + bytes[1..] == bytes;
    }
  }

  /** With a fixed-size value type, `Some(v)` is the identifier byte followed
      by the encoding of the one-element list `[v]`, and `None` is the
      encoding of the empty list. A variable-size value is written without
      the offset a list would put in front of it. */
  lemma OptionalEncodingVersusList<T(!new)>(c: ElemCodec<T>, o: Optional<T>)
    requires SizesConsistent(c)
    ensures o.optional.None? ==> EncodeOptional(c, o) == Encode(c, Elements(o))
    ensures o.optional.Some? && c.isFixedLen ==>
      EncodeOptional(c, o) == [OptionalIdentifier] + Encode(c, Elements(o))
    ensures o.optional.Some? && !c.isFixedLen ==>
      |Encode(c, Elements(o))| == BytesPerLengthOffset + |EncodeOptional(c, o)| - 1
  {
    EncodeShape(c, Elements(o));
    match o.optional {
      case None =>
      case Some(v) =>
        var xs := Elements(o);
        assert xs[1..] == [];
        assert Concat(c, xs) == c.encode(v) + Concat(c, []);
    }
  }

  /** The documented byte examples: `Some(9u8)` is `[1, 9]`, `None` is empty,
      and `[1, 42]` decodes to `Some(42u8)`. */
  lemma ByteOptionalExamples()
    ensures EncodeOptional(U8Codec(), Optional(Some(9))) == [1, 9]
    ensures EncodeOptional(U8Codec(), Optional(None)) == []
    ensures DecodeOptional(U8Codec(), [1, 42]) == Ok(Optional(Some(42)))
    ensures DecodeOptional(U8Codec(), [0, 42]) == Err(BytesInvalid(MissingOptionalPrefix))
  {
    assert [1, 42][1..] == [42];
  }

  /** `tree_hash_root`: the data root that `optional_tree_hash_root` computes
      (a parameter here), with the number of present values, 0 or 1, mixed in.
      The type documents that data root as that of a `VariableList` holding
      the present values; with it, this is `ListRoot` of `Elements(o)`. */
  function TreeHashRoot<T>(h: HashFunctions, dataRoot: Option<T> -> Hash256, o: Optional<T>): (r: Hash256)
    ensures r == h.mixInLength(dataRoot(o.optional), |Elements(o)|)
  {
    var length := match o.optional case None => 0 case Some(_) => 1;
    h.mixInLength(dataRoot(o.optional), length)
  }
}
