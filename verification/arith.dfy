/** Integer facts the length and leaf-count arithmetic of the containers
    rests on: monotonic multiplication, the uniqueness of Euclidean division,
    and `usize::div_ceil`. */
module Arith {

  lemma MulLe(a: nat, b: nat, c: nat)
    requires b <= c
    ensures a * b <= a * c
  {
    assert a * c == a * b + a * (c - b);
  }

  /** The quotient is pinned down by any decomposition `x == q * d + r` with
      `0 <= r < d`. */
  lemma DivUnique(x: nat, d: nat, q: nat, r: nat)
    requires d > 0 && r < d && x == q * d + r
    ensures x / d == q && x % d == r
  {
    var q' := x / d;
    var r' := x % d;
    assert x == q' * d + r';
    if q' > q {
      MulLe(d, 1, q' - q);
      assert false;
    } else if q' < q {
      MulLe(d, 1, q - q');
      assert false;
    }
  }

  /** `usize::div_ceil`: the least `r` with `r * d >= n`. */
  function CeilDiv(n: nat, d: nat): (r: nat)
    requires d > 0
    ensures r * d >= n && r * d < n + d
  {
    var q := n / d;
    assert n == q * d + n % d;
    if n % d == 0 then q else q + 1
  }

  /** The two bounds in `CeilDiv`'s contract determine it. */
  lemma CeilDivUnique(n: nat, d: nat, r: nat)
    requires d > 0 && r * d >= n && r * d < n + d
    ensures CeilDiv(n, d) == r
  {
    var c := CeilDiv(n, d);
    if c < r {
      MulLe(d, c, r - 1);
      assert false;
    } else if c > r {
      MulLe(d, r, c - 1);
      assert false;
    }
  }
}
