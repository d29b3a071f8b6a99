/** The shape of SSZ Merkleization for the containers (src/tree_hash.rs and
    `runtime_vec_tree_hash_root`): how many leaves the tree gets, which bytes
    each element contributes and in what order, and the generalized-index
    arithmetic of `Resolve::gindex`. The hash function itself, the Merkle
    tree builder and `mix_in_length` belong to the external `tree_hash`
    crate and stay uninterpreted. */
module TreeHash {
  import opened SszTypes
  import opened Arith

  // ------------------------------------------------------- powers of two

  predicate IsPow2(p: nat)
  {
    p == 1 || (p > 1 && p % 2 == 0 && IsPow2(p / 2))
  }

  function NextPow2From(n: nat, p: nat): (r: nat)
    requires IsPow2(p) && (n >= 1 ==> p < 2 * n)
    ensures IsPow2(r) && r >= n && r >= p && (n >= 1 ==> r < 2 * n)
    decreases n - p
  {
    if p >= n then p
    else
      assert IsPow2(2 * p) by { assert (2 * p) / 2 == p; }
      NextPow2From(n, 2 * p)
  }

  /** `usize::next_power_of_two`: the least power of two that is at least
      `n`; for 0 this is 1. */
  function NextPow2(n: nat): (r: nat)
    ensures IsPow2(r) && r >= n && r >= 1
    ensures n >= 1 ==> r < 2 * n
  {
    NextPow2From(n, 1)
  }

  lemma {:induction false} Pow2Halves(q: nat, p: nat)
    requires IsPow2(q) && IsPow2(p) && q < p
    ensures 2 * q <= p
  {
    if q > 1 {
      Pow2Halves(q / 2, p / 2);
    }
  }

  /** No power of two lies in `[n, NextPow2(n))`. */
  lemma NextPow2IsLeast(n: nat, q: nat)
    requires IsPow2(q) && q >= n
    ensures NextPow2(n) <= q
  {
    var p := NextPow2(n);
    if q < p {
      Pow2Halves(q, p);
    }
  }

  // ------------------------------------------------------- element kinds

  /** How an element type's values are packed into 32-byte leaves. */
  datatype Packing = Packed(factor: nat) | Unpacked

  /** `T::tree_hash_type()` with what the root computation reads from it:
      for Basic types the packed encoding and the packing factor, for
      Container, List and Vector types the element's own root. */
  datatype HashKind<!T> =
    | Basic(packedSize: nat, packingFactor: nat, packedEncoding: T -> seq<Byte>)
    | Composite(root: T -> Hash256)

  /** A Basic type packs `packingFactor` values of `packedSize` bytes into one
      32-byte chunk. */
  ghost predicate WellFormed<T(!new)>(k: HashKind<T>)
  {
    k.Basic? ==>
      && k.packingFactor >= 1
      && k.packingFactor * k.packedSize <= 32
      && forall x :: |k.packedEncoding(x)| == k.packedSize
  }

  function PackingOf<T>(k: HashKind<T>): Packing
  {
    match k
    case Basic(_, pf, _) => Packed(pf)
    case Composite(_) => Unpacked
  }

  /** Bytes each element contributes to the hasher input. */
  function Width<T>(k: HashKind<T>): nat
  {
    if k.Basic? then k.packedSize else 32
  }

  ghost predicate ValidPacking(p: Packing)
  {
    p.Packed? ==> p.factor >= 1
  }

  /** `vector_chunk_count`: the number of leaves `n` elements occupy. */
  function ChunkCount(p: Packing, n: nat): nat
    requires ValidPacking(p)
  {
    match p
    case Packed(f) => CeilDiv(n, f)
    case Unpacked => n
  }

  /** The leaf limit handed to `MerkleHasher::with_leaves` for a container of
      capacity `n`: `ceil(n / packing_factor)` for Basic elements (the
      `div_ceil` of runtime_variable_list.rs), `n` otherwise. */
  function LeafLimit<T>(k: HashKind<T>, n: nat): nat
    requires k.Basic? ==> k.packingFactor >= 1
  {
    ChunkCount(PackingOf(k), n)
  }

  /** What one element writes into the hasher: its packed encoding when Basic,
      its 32-byte root otherwise. */
  function ItemBytes<T>(k: HashKind<T>, x: T): seq<Byte>
  {
    match k
    case Basic(_, _, enc) => enc(x)
    case Composite(root) => root(x)
  }

  /** Everything written into the hasher for `xs`, in sequence order. */
  function LeafBytes<T>(k: HashKind<T>, xs: seq<T>): seq<Byte>
  {
    if xs == [] then [] else ItemBytes(k, xs[0]) + LeafBytes(k, xs[1..])
  }

  lemma {:induction false} LeafBytesSnoc<T>(k: HashKind<T>, xs: seq<T>, x: T)
    ensures LeafBytes(k, xs + [x]) == LeafBytes(k, xs) + ItemBytes(k, x)
  {
    if xs == [] {
      assert [x][1..] == [];
    } else {
      assert (xs + [x])[1..] == xs[1..] + [x];
      LeafBytesSnoc(k, xs[1..], x);
    }
  }

  /** Every element contributes exactly `Width` bytes: packed bytes for Basic
      elements, a whole 32-byte root for composite ones. */
  lemma {:induction false} LeafBytesLength<T(!new)>(k: HashKind<T>, xs: seq<T>)
    requires WellFormed(k)
    ensures |LeafBytes(k, xs)| == Width(k) * |xs|
  {
    if xs != [] {
      LeafBytesLength(k, xs[1..]);
      assert |ItemBytes(k, xs[0])| == Width(k);
    }
  }

  /** Elements are written in sequence order: element `i` occupies bytes
      `[i * Width, (i + 1) * Width)` of the hasher input. */
  lemma {:induction false} LeafBytesOrder<T(!new)>(k: HashKind<T>, xs: seq<T>, i: nat)
    requires WellFormed(k) && i < |xs|
    ensures Width(k) * i + Width(k) <= |LeafBytes(k, xs)|
    ensures LeafBytes(k, xs)[Width(k) * i .. Width(k) * i + Width(k)] == ItemBytes(k, xs[i])
  {
    var w := Width(k);
    LeafBytesLength(k, xs);
    LeafBytesLength(k, xs[1..]);
    assert |ItemBytes(k, xs[0])| == w;
    if i > 0 {
      LeafBytesOrder(k, xs[1..], i - 1);
      assert w * i == w + w * (i - 1);
      var rest := LeafBytes(k, xs[1..]);
      assert LeafBytes(k, xs)[w * i .. w * i + w] == rest[w * (i - 1) .. w * (i - 1) + w];
    }
  }

  /** A container holding at most `n` elements never writes more than
      `LeafLimit` chunks of 32 bytes. */
  lemma LeafBytesFit<T(!new)>(k: HashKind<T>, xs: seq<T>, n: nat)
    requires WellFormed(k) && |xs| <= n
    ensures |LeafBytes(k, xs)| <= 32 * LeafLimit(k, n)
  {
    LeafBytesLength(k, xs);
    if k.Basic? {
      PackedFit(k.packedSize, |xs|, n, k.packingFactor, LeafLimit(k, n));
    }
  }

  /** `m <= n` values of `w` bytes, `pf` of them to a 32-byte chunk, fit in
      `c` chunks when `c * pf >= n`. */
  lemma PackedFit(w: nat, m: nat, n: nat, pf: nat, c: nat)
    requires pf >= 1 && pf * w <= 32 && m <= n && c * pf >= n
    ensures w * m <= 32 * c
  {
    MulLe(w, m, n);
    MulLe(w, n, c * pf);
    assert w * (c * pf) == (pf * w) * c;
    MulLe(c, pf * w, 32);
  }

  // ------------------------------------------------------- the hasher

  datatype HashError = MaximumLeavesExceeded(maxLeaves: nat)

  /** The external `MerkleHasher`: it accepts bytes up to one 32-byte chunk per
      leaf of a tree padded to a power of two, and `finish` hands what was
      written to the uninterpreted `merkleize(bytes, leaves)`. */
  class MerkleHasher {
    const merkleize: (seq<Byte>, nat) -> Hash256
    const leaves: nat
    var buffer: seq<Byte>

    function Capacity(): nat
    {
      32 * NextPow2(leaves)
    }

    /** `MerkleHasher::with_leaves`. */
    constructor (merkleize: (seq<Byte>, nat) -> Hash256, leaves: nat)
      ensures this.merkleize == merkleize && this.leaves == leaves && buffer == []
    {
      this.merkleize := merkleize;
      this.leaves := leaves;
      buffer := [];
    }

    /** `write` succeeds exactly when the bytes fit, and then appends them. */
    method Write(bytes: seq<Byte>) returns (r: Result<(), HashError>)
      modifies this
      ensures r.Ok? <==> |old(buffer)| + |bytes| <= Capacity()
      ensures buffer == if r.Ok? then old(buffer) + bytes else old(buffer)
    {
      if |buffer| + |bytes| <= Capacity() {
        buffer := buffer + bytes;
        r := Ok(());
      } else {
        r := Err(MaximumLeavesExceeded(NextPow2(leaves)));
      }
    }

    method Finish() returns (root: Hash256)
      ensures root == merkleize(buffer, leaves)
    {
      root := merkleize(buffer, leaves);
    }
  }

  /** `vec_tree_hash_root` with the capacity as an argument (the form every
      caller uses, and the form of `runtime_vec_tree_hash_root`): a hasher
      sized for `LeafLimit(k, n)` leaves receives every element's bytes in
      order. Because `|vec| <= n`, no write is ever refused, so the `expect`
      after each write cannot fire. */
  method VecTreeHashRoot<T(!new)>(k: HashKind<T>, merkleize: (seq<Byte>, nat) -> Hash256, vec: seq<T>, n: nat)
    returns (root: Hash256)
    requires WellFormed(k) && |vec| <= n
    ensures root == merkleize(LeafBytes(k, vec), LeafLimit(k, n))
  {
    var hasher := new MerkleHasher(merkleize, LeafLimit(k, n));
    for i := 0 to |vec|
      invariant hasher.buffer == LeafBytes(k, vec[..i])
      invariant hasher.leaves == LeafLimit(k, n) && hasher.merkleize == merkleize
    {
      LeafBytesSnoc(k, vec[..i], vec[i]);
      assert vec[..i + 1] == vec[..i] + [vec[i]];
      LeafBytesFit(k, vec[..i + 1], n);
      var written := hasher.Write(ItemBytes(k, vec[i]));
      assert written.Ok?;
    }
    assert vec[..|vec|] == vec;
    root := hasher.Finish();
  }

  /** The uninterpreted primitives of the external `tree_hash` crate:
      `merkleize(bytes, leaves)` is the root a `MerkleHasher` with `leaves`
      leaves produces after receiving `bytes`, and `mix_in_length` combines a
      root with a length. */
  datatype HashFunctions = HashFunctions(
    merkleize: (seq<Byte>, nat) -> Hash256,
    mixInLength: (Hash256, nat) -> Hash256)

  /** The root of an SSZ vector of capacity `n`: the data tree alone. */
  function VectorRoot<T>(k: HashKind<T>, h: HashFunctions, vec: seq<T>, n: nat): Hash256
    requires k.Basic? ==> k.packingFactor >= 1
  {
    h.merkleize(LeafBytes(k, vec), LeafLimit(k, n))
  }

  /** The root of an SSZ list of capacity `n`: the data tree with the list's
      length mixed in. */
  function ListRoot<T>(k: HashKind<T>, h: HashFunctions, vec: seq<T>, n: nat): Hash256
    requires k.Basic? ==> k.packingFactor >= 1
  {
    h.mixInLength(VectorRoot(k, h, vec, n), |vec|)
  }

  /** `u8` as a Basic tree-hash type: one byte, 32 to a chunk. */
  function U8HashKind(): HashKind<Byte>
  {
    Basic(1, 32, x => [x])
  }

  /** Bytes are packed as they are: the hasher input of a byte sequence is the
      sequence itself, and 32 bytes share a leaf. */
  lemma {:induction false} U8LeafBytes(bs: seq<Byte>, n: nat)
    ensures WellFormed(U8HashKind())
    ensures LeafBytes(U8HashKind(), bs) == bs
    ensures LeafLimit(U8HashKind(), n) == CeilDiv(n, 32)
  {
    if bs != [] {
      U8LeafBytes(bs[1..], n);
      assert [bs[0]] + bs[1..] == bs;
    }
  }

  /** The leaf limit exactly as src/tree_hash.rs computes it for Basic
      elements, `(N + pf - 1) / pf` in `usize`, where the sum wraps in a
      release build. */
  function LeafLimitAsWritten(n: nat, pf: nat): nat
    requires 1 <= pf
  {
    ((n + pf - 1) % (UsizeMax + 1)) / pf
  }

  /** While `N + pf - 1` fits in `usize`, the written formula is `ceil(N / pf)`. */
  lemma LeafLimitAsWrittenAgrees(n: nat, pf: nat)
    requires 1 <= pf && n + pf - 1 <= UsizeMax
    ensures LeafLimitAsWritten(n, pf) == CeilDiv(n, pf)
  {
    var sum := n + pf - 1;
    DivUnique(sum, UsizeMax + 1, 0, sum);
    var q := n / pf;
    var r := n % pf;
    DivUnique(n, pf, q, r);
    if r == 0 {
      DivUnique(sum, pf, q, pf - 1);
    } else {
      assert (q + 1) * pf == q * pf + pf;
      DivUnique(sum, pf, q + 1, r - 1);
    }
  }

  /** For a capacity near `usize::MAX` the wrapped sum makes the leaf limit
      collapse: `N = usize::MAX` with 32 `u8`s per chunk gives 0 leaves instead
      of 2^59. */
  lemma LeafLimitAsWrittenOverflows()
    ensures LeafLimitAsWritten(UsizeMax, 32) == 0
    ensures CeilDiv(UsizeMax, 32) == 0x800_0000_0000_0000
  {
    DivUnique(UsizeMax, 32, 0x800_0000_0000_0000 - 1, 31);
  }

  // ------------------------------------------------------- generalized indices

  /** `get_vector_item_position`: the leaf holding element `i`. */
  function ItemPosition(p: Packing, i: nat): nat
    requires ValidPacking(p)
  {
    match p
    case Packed(f) => i / f
    case Unpacked => i
  }

  /** `Resolve<VecIndex<I, N>>::gindex` for a list: the factor 2 steps over
      the length mix-in into the data subtree. */
  function ListItemGindex(parent: nat, p: Packing, n: nat, i: nat): nat
    requires ValidPacking(p)
  {
    parent * 2 * NextPow2(ChunkCount(p, n)) + ItemPosition(p, i)
  }

  /** `Resolve<Field>::gindex` for a container field. */
  function FieldGindex(parent: nat, numFields: nat, index: nat): nat
  {
    parent * NextPow2(numFields) + index
  }

  /** One step of a `Path`: a container field or a list element. */
  datatype PathStep =
    | Field(numFields: nat, index: nat)
    | ListItem(packing: Packing, capacity: nat, index: nat)

  ghost predicate ValidStep(s: PathStep)
  {
    s.ListItem? ==> ValidPacking(s.packing)
  }

  function StepGindex(parent: nat, s: PathStep): nat
    requires ValidStep(s)
  {
    match s
    case Field(f, i) => FieldGindex(parent, f, i)
    case ListItem(p, n, i) => ListItemGindex(parent, p, n, i)
  }

  /** `Path<A, B>` resolves `A` from the parent, then `B` from there. */
  function ResolvePath(parent: nat, path: seq<PathStep>): nat
    requires forall s <- path :: ValidStep(s)
    decreases |path|
  {
    if path == [] then parent else ResolvePath(StepGindex(parent, path[0]), path[1..])
  }

  /** The paths of the source's `gindex_basics` test, resolved from the root:
      `x3.x2.x1`, `x3.x2.y1`, `x3.y2.y1[5]` (u64 elements, four per chunk, in a
      list of capacity 10) and `[0].x3.y2.y1[5]` inside a list of five
      containers. */
  lemma GindexExamples()
    ensures ResolvePath(1, [Field(2, 0), Field(2, 0), Field(2, 0)]) == 8
    ensures ResolvePath(1, [Field(2, 0), Field(2, 0), Field(2, 1)]) == 9
    ensures ResolvePath(1, [Field(2, 0), Field(2, 1), Field(2, 1), ListItem(Packed(4), 10, 5)]) == 89
    ensures ResolvePath(1, [ListItem(Unpacked, 5, 0), Field(2, 0), Field(2, 1), Field(2, 1), ListItem(Packed(4), 10, 5)]) == 1049
  {
    assert NextPow2(2) == 2 by { NextPow2IsLeast(2, 2); }
    assert CeilDiv(10, 4) == 3;
    assert NextPow2(3) == 4 by { NextPow2IsLeast(3, 4); assert IsPow2(2); }
    assert NextPow2(5) == 8 by { NextPow2IsLeast(5, 8); assert IsPow2(4); assert IsPow2(2); }
    assert ListItemGindex(11, Packed(4), 10, 5) == 89;
    assert ListItemGindex(131, Packed(4), 10, 5) == 1049;
  }

  /** Every element of a list of capacity `n` lies in one of the list's
      `ChunkCount` leaves. */
  lemma ItemPositionInRange(p: Packing, n: nat, i: nat)
    requires ValidPacking(p) && i < n
    ensures ItemPosition(p, i) < ChunkCount(p, n)
  {
    if p.Packed? {
      var f := p.factor;
      var c := CeilDiv(n, f);
      assert i == (i / f) * f + i % f;
      if i / f >= c {
        MulLe(f, c, i / f);
        assert false;
      }
    }
  }

  /** Any position the data subtree has room for, whether or not it is below
      the maximum length, lies in the data subtree below the list node:
      dividing the gindex by the subtree's width gives `2 * parent`, the left
      child that sits beside the length mix-in. */
  lemma ListItemUnderDataRoot(parent: nat, p: Packing, n: nat, i: nat)
    requires ValidPacking(p) && ItemPosition(p, i) < NextPow2(ChunkCount(p, n))
    ensures ListItemGindex(parent, p, n, i) / NextPow2(ChunkCount(p, n)) == 2 * parent
  {
    DivUnique(ListItemGindex(parent, p, n, i), NextPow2(ChunkCount(p, n)), 2 * parent, ItemPosition(p, i));
  }

  /** In particular every index below the maximum length has room there. */
  lemma ListElementUnderDataRoot(parent: nat, p: Packing, n: nat, i: nat)
    requires ValidPacking(p) && i < n
    ensures ItemPosition(p, i) < NextPow2(ChunkCount(p, n))
    ensures ListItemGindex(parent, p, n, i) / NextPow2(ChunkCount(p, n)) == 2 * parent
  {
    ItemPositionInRange(p, n, i);
    ListItemUnderDataRoot(parent, p, n, i);
  }

  /** Likewise a field's gindex lies directly under its container's node. */
  lemma FieldUnderContainer(parent: nat, numFields: nat, index: nat)
    requires index < numFields
    ensures FieldGindex(parent, numFields, index) / NextPow2(numFields) == parent
  {
    DivUnique(FieldGindex(parent, numFields, index), NextPow2(numFields), parent, index);
  }
}
