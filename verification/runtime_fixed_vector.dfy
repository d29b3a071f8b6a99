/** `RuntimeFixedVector<T>` (src/runtime_types/runtime_fixed_vector.rs): a
    vector whose length is chosen at run time and then never changes. The
    struct keeps the length beside the elements; every operation keeps the
    two in agreement. */
module RuntimeFixedVectors {

  /** `n` copies of `elem`: what `vec![T::default(); n]` builds. */
  function Repeat<T>(elem: T, n: nat): (r: seq<T>)
    ensures |r| == n
    ensures forall i :: 0 <= i < n ==> r[i] == elem
  {
    seq(n, _ => elem)
  }

  class RuntimeFixedVector<T> {
    var vec: seq<T>
    var len: nat

    /** The stored length is the number of elements. */
    ghost predicate Valid()
      reads this
    {
      len == |vec|
    }

    /** `RuntimeFixedVector::new(vec)`: the length is taken from `vec`. */
    constructor New(vec: seq<T>)
      ensures Valid() && this.vec == vec && len == |vec|
    {
      this.vec := vec;
      this.len := |vec|;
    }

    /** `RuntimeFixedVector::default(max_len)`: `max_len` default values. */
    constructor Default(maxLen: nat, dflt: T)
      ensures Valid() && len == maxLen
      ensures forall i :: 0 <= i < maxLen ==> vec[i] == dflt
    {
      vec := Repeat(dflt, maxLen);
      len := maxLen;
    }

    /** The struct literal `Self { vec, len }`. */
    constructor Build(vec: seq<T>, len: nat)
      ensures this.vec == vec && this.len == len
    {
      this.vec := vec;
      this.len := len;
    }

    /** `len()`: the stored length, which is the element count. */
    function Len(): (r: nat)
      reads this
      ensures Valid() ==> r == |vec|
    {
      len
    }

    /** A write through `DerefMut`: a slice cannot grow or shrink, so only
        element `i` changes and the length stays fixed. */
    method Set(i: nat, value: T)
      requires i < |vec|
      modifies this
      ensures vec == old(vec)[i := value] && len == old(len)
      ensures old(Valid()) ==> Valid()
    {
      vec := vec[i := value];
    }

    /** `take()`: moves the elements out into a new vector of the same
        length and refills this one with `len` default values, so both are
        valid afterwards and neither changes length. */
    method Take(dflt: T) returns (taken: RuntimeFixedVector<T>)
      modifies this
      ensures fresh(taken)
      ensures taken.vec == old(vec) && taken.len == old(len)
      ensures old(Valid()) ==> taken.Valid()
      ensures vec == Repeat(dflt, old(len)) && len == old(len) && Valid()
    {
      var moved := vec;
      vec := [];
      var refill := Repeat(dflt, len);
      vec := refill;
      len := |refill|;
      taken := new RuntimeFixedVector.Build(moved, len);
    }
  }
}
