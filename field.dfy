/** Prime-field elements are modelled by their canonical integer representatives in [0, p). */
module Field {

  /** Every element of `s` is a canonical representative modulo `p`. */
  predicate Reduced(s: seq<int>, p: nat) {
    forall i :: 0 <= i < |s| ==> 0 <= s[i] < p
  }

  /** x^e in Z/pZ, by repeated multiplication. */
  function Pow(x: int, e: nat, p: nat): (r: int)
    requires p > 0
    ensures 0 <= r < p
  {
    if e == 0 then 1 % p else (x * Pow(x, e - 1, p)) % p
  }

  /** base^k over the integers. */
  function Power(base: nat, k: nat): (r: nat)
    requires base > 0
    ensures r > 0
  {
    if k == 0 then 1 else base * Power(base, k - 1)
  }

  /** The `k` low digits of `x` in `base`, least significant first: the first `k` units of the
      little-endian encoding of `x` (bytes for base 256, bits for base 2). */
  function Digits(x: int, base: nat, k: nat): (r: seq<nat>)
    requires base > 1
    ensures |r| == k
    ensures forall i :: 0 <= i < k ==> r[i] < base
  {
    seq(k, i requires 0 <= i < k => (x / Power(base, i)) % base)
  }

  /** Division by `d` of `x`, pinned down by a quotient and remainder. */
  lemma DivUnique(x: int, d: int, q: int, r: int)
    requires d > 0 && x == q * d + r && 0 <= r < d
    ensures x / d == q && x % d == r
  {
    var q0, r0 := x / d, x % d;
    var t := q0 - q;
    assert t * d == r - r0 by {
      assert q0 * d + r0 == q * d + r;
      assert t * d == q0 * d - q * d;
    }
    if t >= 1 {
      MulAtLeast(t, d);
    } else if t <= -1 {
      MulAtLeast(-t, d);
    }
  }

  /** A positive multiple of d is at least d. */
  lemma MulAtLeast(t: int, d: int)
    requires t >= 1 && d > 0
    ensures t * d >= d
  {
  }
}
