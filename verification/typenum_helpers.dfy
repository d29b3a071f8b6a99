/** The conversion of a type-level capacity to `usize` (src/typenum_helpers.rs).
    The target's pointer width is a parameter rather than a build setting, and
    so is the `cap-typenum-to-usize-overflow` feature. */
module TypenumHelpers {
  import opened SszTypes

  datatype PointerWidth = Bits16 | Bits32 | Bits64

  /** What happens when the capacity does not fit: the default panics, the
      `cap-typenum-to-usize-overflow` feature saturates. */
  datatype OverflowPolicy = PanicOnOverflow | CapAtUsizeMax

  /** The panic "Overflow converting typenum U{n} to usize (usize::MAX={max})". */
  datatype Overflow = Overflow(typenum: nat, usizeMax: nat)

  function UsizeMaxOf(w: PointerWidth): nat
  {
    match w
    case Bits16 => 0xFFFF
    case Bits32 => 0xFFFF_FFFF
    case Bits64 => UsizeMax
  }

  /** `to_usize::<N>()` for a capacity `n` (every typenum the crate converts
      also converts to `u64`). On 64-bit targets `n` comes back as it is.
      Elsewhere `N::to_usize()` keeps the low bits of `n`, and the result is
      used only if it still equals `N::to_u64()`; otherwise the call panics or,
      with the feature, returns `usize::MAX`. */
  function ToUsize(n: nat, w: PointerWidth, policy: OverflowPolicy): (r: Result<nat, Overflow>)
    requires n <= UsizeMax
    ensures r.Ok? ==> r.value == if n <= UsizeMaxOf(w) then n else UsizeMaxOf(w)
    ensures r.Ok? ==> r.value <= n && r.value <= UsizeMaxOf(w)
    ensures r.Err? <==> policy == PanicOnOverflow && n > UsizeMaxOf(w)
    ensures r.Err? ==> r.error == Overflow(n, UsizeMaxOf(w))
  {
    if w == Bits64 then Ok(n)
    else
      var asUsize := n % (UsizeMaxOf(w) + 1);
      if asUsize == n then Ok(asUsize)
      else if policy == PanicOnOverflow then Err(Overflow(n, UsizeMaxOf(w)))
      else Ok(UsizeMaxOf(w))
  }
}
