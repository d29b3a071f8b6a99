/** The SSZ encoding of a sequence of elements (the rule the containers repeat
    or delegate to `Vec<T>`'s `Encode`), the chunk-by-chunk decoding loop the
    containers share, and the abstract element codec both rest on. */
module SszCodec {
  import opened SszTypes
  import opened Arith

  /** What the containers use of an element type `T` that implements SSZ
      `Encode` and `Decode`. The element's own code lies outside this model;
      the predicates below state what it is assumed to satisfy. */
  datatype ElemCodec<!T> = ElemCodec(
    isFixedLen: bool,                                  // T::is_ssz_fixed_len()
    fixedLen: nat,                                     // T::ssz_fixed_len()
    encode: T -> seq<Byte>,                            // the bytes T::ssz_append writes
    bytesLen: T -> nat,                                // T::ssz_bytes_len()
    decode: seq<Byte> -> Result<T, DecodeError>,       // T::from_ssz_bytes
    decodeVariableItems: (seq<Byte>, nat) -> Result<seq<T>, DecodeError>
                                                       // ssz::decode_list_of_variable_length_items::<T>(bytes, Some(max))
  )

  /** One past the largest value a 4-byte offset can hold. */
  const OffsetLimit: nat := 0x1_0000_0000

  /** Decoding an element's encoding gives the element back. */
  ghost predicate RoundTrips<T(!new)>(c: ElemCodec<T>)
  {
    forall x :: c.decode(c.encode(x)) == Ok(x)
  }

  /** `ssz_bytes_len` is the encoded length, and a fixed-size element always
      encodes to exactly `ssz_fixed_len` bytes. */
  ghost predicate SizesConsistent<T(!new)>(c: ElemCodec<T>)
  {
    && (forall x :: c.bytesLen(x) == |c.encode(x)|)
    && (c.isFixedLen ==> forall x :: |c.encode(x)| == c.fixedLen)
  }

  /** A fixed-size element decoder refuses every input whose length is not
      `ssz_fixed_len`, in particular the short trailing chunk of a byte string
      whose length is not a multiple of it. */
  ghost predicate RejectsWrongLength<T>(c: ElemCodec<T>)
  {
    c.isFixedLen ==> forall b :: |b| != c.fixedLen ==> c.decode(b).Err?
  }

  /** The external variable-item decoder honours its bound `Some(max)`: it
      never returns more than `max` items. */
  ghost predicate HonoursBound<T>(c: ElemCodec<T>)
  {
    forall b, m :: c.decodeVariableItems(b, m).Ok? ==> |c.decodeVariableItems(b, m).value| <= m
  }

  /** The external variable-item decoder honours its bound and inverts the
      offset-table encoding of every sequence of at most `max` items whose
      offsets fit in four bytes. */
  ghost predicate VariableDecoderLaws<T(!new)>(c: ElemCodec<T>)
  {
    && HonoursBound(c)
    && (!c.isFixedLen ==>
          forall xs, m :: |xs| <= m && |Encode(c, xs)| < OffsetLimit ==> c.decodeVariableItems(Encode(c, xs), m) == Ok(xs))
  }

  /** Everything the containers' codec properties rely on. */
  ghost predicate Lawful<T(!new)>(c: ElemCodec<T>)
  {
    RoundTrips(c) && SizesConsistent(c) && RejectsWrongLength(c) && VariableDecoderLaws(c)
  }

  // ---------------------------------------------------------------- encoding

  /** `encode_length`: the low four bytes of `v`, little-endian. */
  function OffsetBytes(v: nat): (r: seq<Byte>)
    ensures |r| == BytesPerLengthOffset
  {
    var w := v % OffsetLimit;
    [w % 0x100, (w / 0x100) % 0x100, (w / 0x1_0000) % 0x100, (w / 0x100_0000) % 0x100]
  }

  /** The element encodings, back to back, in sequence order. */
  function Concat<T>(c: ElemCodec<T>, xs: seq<T>): seq<Byte>
  {
    if xs == [] then [] else c.encode(xs[0]) + Concat(c, xs[1..])
  }

  /** One 4-byte offset per element; the first is `first` and each next one
      moves past the previous element's encoding. */
  function OffsetTable<T>(c: ElemCodec<T>, xs: seq<T>, first: nat): seq<Byte>
  {
    if xs == [] then [] else OffsetBytes(first) + OffsetTable(c, xs[1..], first + |c.encode(xs[0])|)
  }

  /** The SSZ encoding of a sequence: fixed-size elements are concatenated;
      variable-size elements are preceded by a table of offsets measured from
      the start of the encoding. */
  function Encode<T>(c: ElemCodec<T>, xs: seq<T>): seq<Byte>
  {
    if c.isFixedLen then Concat(c, xs)
    else OffsetTable(c, xs, BytesPerLengthOffset * |xs|) + Concat(c, xs)
  }

  function SumBytesLen<T>(c: ElemCodec<T>, xs: seq<T>): nat
  {
    if xs == [] then 0 else c.bytesLen(xs[0]) + SumBytesLen(c, xs[1..])
  }

  /** `Vec<T>::ssz_bytes_len`, computed from the element sizes without encoding. */
  function SszBytesLen<T>(c: ElemCodec<T>, xs: seq<T>): nat
  {
    if c.isFixedLen then c.fixedLen * |xs|
    else BytesPerLengthOffset * |xs| + SumBytesLen(c, xs)
  }

  lemma {:induction false} ConcatSnoc<T>(c: ElemCodec<T>, xs: seq<T>, x: T)
    ensures Concat(c, xs + [x]) == Concat(c, xs) + c.encode(x)
  {
    if xs == [] {
      assert [x][1..] == [];
    } else {
      assert (xs + [x])[1..] == xs[1..] + [x];
      ConcatSnoc(c, xs[1..], x);
    }
  }

  lemma {:induction false} OffsetTableSnoc<T>(c: ElemCodec<T>, xs: seq<T>, x: T, first: nat)
    ensures OffsetTable(c, xs + [x], first) == OffsetTable(c, xs, first) + OffsetBytes(first + |Concat(c, xs)|)
  {
    if xs == [] {
      assert [x][1..] == [];
    } else {
      assert (xs + [x])[1..] == xs[1..] + [x];
      OffsetTableSnoc(c, xs[1..], x, first + |c.encode(xs[0])|);
    }
  }

  lemma {:induction false} OffsetTableLength<T>(c: ElemCodec<T>, xs: seq<T>, first: nat)
    ensures |OffsetTable(c, xs, first)| == BytesPerLengthOffset * |xs|
  {
    if xs != [] {
      OffsetTableLength(c, xs[1..], first + |c.encode(xs[0])|);
    }
  }

  lemma {:induction false} ConcatLength<T(!new)>(c: ElemCodec<T>, xs: seq<T>)
    requires SizesConsistent(c)
    ensures |Concat(c, xs)| == SumBytesLen(c, xs)
    ensures c.isFixedLen ==> |Concat(c, xs)| == c.fixedLen * |xs|
  {
    if xs != [] {
      ConcatLength(c, xs[1..]);
      assert |Concat(c, xs)| == |c.encode(xs[0])| + |Concat(c, xs[1..])|;
      if c.isFixedLen {
        calc {
          |Concat(c, xs)|;
          c.fixedLen + c.fixedLen * (|xs| - 1);
          c.fixedLen * |xs|;
        }
      }
    }
  }

  /** `ssz_bytes_len` agrees with the length of the encoding `ssz_append` writes. */
  lemma SszBytesLenIsEncodedLength<T(!new)>(c: ElemCodec<T>, xs: seq<T>)
    requires SizesConsistent(c)
    ensures SszBytesLen(c, xs) == |Encode(c, xs)|
  {
    ConcatLength(c, xs);
    OffsetTableLength(c, xs, BytesPerLengthOffset * |xs|);
  }

  /** The shape of the encoding: `size(T) * len` bytes for fixed-size elements;
      otherwise a `len * 4`-byte offset table, whose first offset points just past
      the table, followed by the element bodies in order. The empty sequence
      encodes to no bytes at all, and no other sequence of variable-size
      elements does. */
  lemma EncodeShape<T(!new)>(c: ElemCodec<T>, xs: seq<T>)
    requires SizesConsistent(c)
    ensures c.isFixedLen ==> |Encode(c, xs)| == c.fixedLen * |xs|
    ensures !c.isFixedLen ==>
      && |Encode(c, xs)| >= BytesPerLengthOffset * |xs|
      && Encode(c, xs)[BytesPerLengthOffset * |xs|..] == Concat(c, xs)
      && (xs != [] ==> Encode(c, xs)[..BytesPerLengthOffset] == OffsetBytes(BytesPerLengthOffset * |xs|))
    ensures Encode(c, xs) == [] <==> xs == [] || (c.isFixedLen && c.fixedLen == 0)
  {
    ConcatLength(c, xs);
    OffsetTableLength(c, xs, BytesPerLengthOffset * |xs|);
    if c.isFixedLen && xs != [] && c.fixedLen != 0 {
      assert |Encode(c, xs)| == c.fixedLen * |xs| > 0;
    }
  }

  /** `ssz_append` of a sequence (fixed_vector.rs, and `Vec<T>`'s own
      `Encode`, which the lists delegate to): append each fixed-size element's
      encoding in turn; or, for variable-size elements, write one offset per
      element straight into `buf` while collecting the bodies, and append the
      bodies at the end (`SszEncoder::container`, `append`, `finalize`). */
  method SszAppendItems<T>(c: ElemCodec<T>, xs: seq<T>, buf: ByteBuffer)
    modifies buf
    ensures buf.bytes == old(buf.bytes) + Encode(c, xs)
  {
    if c.isFixedLen {
      AppendConcatenated(c, xs, buf);
    } else {
      ghost var start := buf.bytes;
      var variableBytes := AppendOffsets(c, xs, buf);
      buf.bytes := buf.bytes + variableBytes;
      assert buf.bytes == start + (OffsetTable(c, xs, BytesPerLengthOffset * |xs|) + Concat(c, xs));
    }
  }

  /** The fixed-size branch of `ssz_append`: each element's encoding in turn. */
  method AppendConcatenated<T>(c: ElemCodec<T>, xs: seq<T>, buf: ByteBuffer)
    modifies buf
    ensures buf.bytes == old(buf.bytes) + Concat(c, xs)
  {
    ghost var start := buf.bytes;
    for i := 0 to |xs|
      invariant buf.bytes == start + Concat(c, xs[..i])
    {
      ConcatSnoc(c, xs[..i], xs[i]);
      assert xs[..i + 1] == xs[..i] + [xs[i]];
      buf.bytes := buf.bytes + c.encode(xs[i]);
    }
    assert xs[..|xs|] == xs;
  }

  /** The variable-size branch of `ssz_append` up to `finalize`: one offset
      per element goes into `buf`, the element bodies are collected and
      returned. */
  method AppendOffsets<T>(c: ElemCodec<T>, xs: seq<T>, buf: ByteBuffer) returns (variableBytes: seq<Byte>)
    modifies buf
    ensures buf.bytes == old(buf.bytes) + OffsetTable(c, xs, BytesPerLengthOffset * |xs|)
    ensures variableBytes == Concat(c, xs)
  {
    ghost var start := buf.bytes;
    var offset := |xs| * BytesPerLengthOffset;
    variableBytes := [];
    for i := 0 to |xs|
      invariant buf.bytes == start + OffsetTable(c, xs[..i], offset)
      invariant variableBytes == Concat(c, xs[..i])
    {
      ConcatSnoc(c, xs[..i], xs[i]);
      OffsetTableSnoc(c, xs[..i], xs[i], offset);
      assert xs[..i + 1] == xs[..i] + [xs[i]];
      buf.bytes := buf.bytes + OffsetBytes(offset + |variableBytes|);
      variableBytes := variableBytes + c.encode(xs[i]);
    }
    assert xs[..|xs|] == xs;
  }

  // ---------------------------------------------------------------- decoding

  function Prepend<T>(xs: seq<T>, r: Result<seq<T>, DecodeError>): Result<seq<T>, DecodeError>
  {
    match r
    case Ok(ys) => Ok(xs + ys)
    case Err(e) => Err(e)
  }

  lemma PrependNothing<T>(r: Result<seq<T>, DecodeError>)
    ensures Prepend([], r) == r
  {
    if r.Ok? {
      assert [] + r.value == r.value;
    }
  }

  /** `bytes.chunks(size)` decoded element by element, stopping at the first
      element error; the last chunk is short when `size` does not divide the
      length. */
  function DecodeFixedItems<T>(c: ElemCodec<T>, bytes: seq<Byte>): Result<seq<T>, DecodeError>
    requires c.fixedLen > 0
    decreases |bytes|
  {
    if bytes == [] then Ok([])
    else
      var n := if |bytes| < c.fixedLen then |bytes| else c.fixedLen;
      match c.decode(bytes[..n])
      case Err(e) => Err(e)
      case Ok(x) => Prepend([x], DecodeFixedItems(c, bytes[n..]))
  }

  /** The `try_fold` over `bytes.chunks(T::ssz_fixed_len())` that pushes each
      decoded element into a growing vector (variable_list.rs, fixed_vector.rs
      and runtime_variable_list.rs share it). */
  method DecodeChunks<T>(c: ElemCodec<T>, bytes: seq<Byte>) returns (r: Result<seq<T>, DecodeError>)
    requires c.fixedLen > 0
    ensures r == DecodeFixedItems(c, bytes)
  {
    var vec: seq<T> := [];
    var pos := 0;
    assert bytes[pos..] == bytes;
    PrependNothing(DecodeFixedItems(c, bytes));
    while pos < |bytes|
      invariant pos <= |bytes|
      invariant DecodeFixedItems(c, bytes) == Prepend(vec, DecodeFixedItems(c, bytes[pos..]))
      decreases |bytes| - pos
    {
      var end := if |bytes| - pos < c.fixedLen then |bytes| else pos + c.fixedLen;
      ghost var rest := bytes[pos..];
      assert rest[..end - pos] == bytes[pos..end];
      assert rest[end - pos..] == bytes[end..];
      var item := c.decode(bytes[pos..end]);
      if item.Err? {
        return Err(item.error);
      }
      match DecodeFixedItems(c, bytes[end..]) {
        case Ok(ys) => assert vec + ([item.value] + ys) == (vec + [item.value]) + ys;
        case Err(_) =>
      }
      vec := vec + [item.value];
      pos := end;
    }
    assert bytes[pos..] == [];
    assert vec + [] == vec;
    return Ok(vec);
  }

  /** Decoding the concatenated encodings of fixed-size elements gives the
      elements back. */
  lemma {:induction false} DecodeFixedItemsRoundTrip<T(!new)>(c: ElemCodec<T>, xs: seq<T>)
    requires c.isFixedLen && c.fixedLen > 0 && RoundTrips(c) && SizesConsistent(c)
    ensures DecodeFixedItems(c, Concat(c, xs)) == Ok(xs)
  {
    if xs != [] {
      var b := Concat(c, xs);
      var k := c.fixedLen;
      assert |c.encode(xs[0])| == k;
      assert b[..k] == c.encode(xs[0]);
      assert b[k..] == Concat(c, xs[1..]);
      DecodeFixedItemsRoundTrip(c, xs[1..]);
      assert [xs[0]] + xs[1..] == xs;
    }
  }

  /** When the element decoder refuses wrong-length input, a successful decode
      consumed whole chunks only: the input is exactly `size * count` bytes. */
  lemma {:induction false} DecodeFixedItemsLength<T>(c: ElemCodec<T>, bytes: seq<Byte>)
    requires c.isFixedLen && c.fixedLen > 0 && RejectsWrongLength(c)
    ensures DecodeFixedItems(c, bytes).Ok? ==> |bytes| == c.fixedLen * |DecodeFixedItems(c, bytes).value|
  {
    var k := c.fixedLen;
    if bytes != [] {
      if |bytes| < k {
        // the only chunk is short, so the element decoder refuses it
        assert c.decode(bytes[..|bytes|]).Err?;
      } else if DecodeFixedItems(c, bytes).Ok? {
        var d := c.decode(bytes[..k]);
        var rest := DecodeFixedItems(c, bytes[k..]);
        assert d.Ok? && DecodeFixedItems(c, bytes) == Prepend([d.value], rest);
        assert rest.Ok?;
        DecodeFixedItemsLength(c, bytes[k..]);
        var m := |rest.value|;
        assert |bytes| == k + k * m;
        assert k * (1 + m) == k + k * m;
      }
    }
  }

  /** Without any assumption on the element decoder, a successful decode
      yields one element per chunk, the last chunk possibly short:
      `ceil(|bytes| / size)` elements. */
  lemma {:induction false} DecodeFixedItemsChunkCount<T>(c: ElemCodec<T>, bytes: seq<Byte>)
    requires c.fixedLen > 0
    ensures DecodeFixedItems(c, bytes).Ok? ==> |DecodeFixedItems(c, bytes).value| == CeilDiv(|bytes|, c.fixedLen)
  {
    var k := c.fixedLen;
    if bytes == [] {
      CeilDivUnique(0, k, 0);
    } else if DecodeFixedItems(c, bytes).Ok? {
      if |bytes| < k {
        assert bytes[|bytes|..] == [];
        CeilDivUnique(|bytes|, k, 1);
      } else {
        var rest := DecodeFixedItems(c, bytes[k..]);
        assert DecodeFixedItems(c, bytes) == Prepend([c.decode(bytes[..k]).value], rest);
        DecodeFixedItemsChunkCount(c, bytes[k..]);
        var m := CeilDiv(|bytes| - k, k);
        assert (m + 1) * k == m * k + k;
        CeilDivUnique(|bytes|, k, m + 1);
      }
    }
  }

  // ---------------------------------------------------------------- u8

  /** `u8::from_ssz_bytes`: exactly one byte. */
  function U8Decode(b: seq<Byte>): Result<Byte, DecodeError>
  {
    if |b| == 1 then Ok(b[0]) else Err(InvalidByteLength(|b|, 1))
  }

  /** The SSZ codec of `u8`: one fixed byte, itself. The variable-item decoder
      is never consulted for a fixed-size type. */
  function U8Codec(): ElemCodec<Byte>
  {
    ElemCodec(true, 1, x => [x], x => 1, U8Decode, (b, m) => Err(InvalidByteLength(|b|, 1)))
  }

  lemma U8CodecLawful()
    ensures Lawful(U8Codec())
  {
  }

  /** A sequence of bytes encodes to itself. */
  lemma {:induction false} U8EncodeIsRaw(bs: seq<Byte>)
    ensures Encode(U8Codec(), bs) == bs
  {
    if bs != [] {
      U8EncodeIsRaw(bs[1..]);
      assert [bs[0]] + bs[1..] == bs;
    }
  }
}
