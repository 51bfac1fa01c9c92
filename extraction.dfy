/** Byte and bit extraction from squeezed field elements: each element contributes only its low
    `MODULUS_BIT_SIZE - 1` bits (whole bytes of them, for bytes), and the concatenation is cut to
    the requested count. */
module Extraction {
  import opened Field

  /** Whole bytes below the top bit of a field element. */
  function UsableBytes(bitSize: nat): (r: nat)
    requires bitSize >= 1
    ensures r * 8 <= bitSize - 1 < (r + 1) * 8
  {
    (bitSize - 1) / 8
  }

  /** Bits below the top bit of a field element. */
  function UsableBits(bitSize: nat): (r: nat)
    requires bitSize >= 1
    ensures r < bitSize && UsableBytes(bitSize) * 8 <= r
  {
    bitSize - 1
  }

  /** The number of elements squeezed for `n` units when each element yields `u` of them: the
      least `m` with `m * u >= n`. */
  function ElementsFor(n: nat, u: nat): (m: nat)
    requires u >= 1
    ensures m * u >= n
    ensures m == 0 || (m - 1) * u < n
  {
    var q := (n + u - 1) / u;
    var r := (n + u - 1) % u;
    assert q * u + r == n + u - 1;
    assert (q - 1) * u == q * u - u;
    q
  }

  /** The low `u` base-`base` digits of every element of `xs`, in order: the buffer the extraction
      loop builds before it truncates. */
  function LowDigits(xs: seq<int>, base: nat, u: nat): (r: seq<nat>)
    requires base > 1
    ensures |r| == |xs| * u
    ensures forall k :: 0 <= k < |r| ==> r[k] < base
  {
    if |xs| == 0 then []
    else
      var init := LowDigits(xs[..|xs| - 1], base, u);
      assert |init| + u == |xs| * u by {
        assert (|xs| - 1) * u == |xs| * u - u;
      }
      init + Digits(xs[|xs| - 1], base, u)
  }

  /** The extracted units: the first `n` of `LowDigits`. */
  function Extract(xs: seq<int>, base: nat, u: nat, n: nat): (r: seq<nat>)
    requires base > 1 && n <= |xs| * u
    ensures |r| == n
    ensures forall k :: 0 <= k < n ==> r[k] < base
  {
    LowDigits(xs, base, u)[..n]
  }

  /** Unit `k` of the buffer is digit `k % u` of element `k / u`: element i fills units
      [i * u, (i + 1) * u) with its own low digits, least significant first. */
  lemma {:induction false} LowDigitsAt(xs: seq<int>, base: nat, u: nat, k: nat)
    requires base > 1 && u >= 1 && k < |xs| * u
    ensures k / u < |xs|
    ensures LowDigits(xs, base, u)[k] == Digits(xs[k / u], base, u)[k % u]
    decreases |xs|
  {
    var last := |xs| - 1;
    var init := LowDigits(xs[..last], base, u);
    var tail := Digits(xs[last], base, u);
    assert LowDigits(xs, base, u) == init + tail;
    var m := |init|;
    assert m == last * u;
    if k < m {
      LowDigitsAt(xs[..last], base, u, k);
      assert xs[..last][k / u] == xs[k / u];
      assert (init + tail)[k] == init[k];
    } else {
      var i := k - m;
      assert 0 <= i < u by {
        assert m + u == |xs| * u;
      }
      DivUnique(k, u, last, i);
      assert (init + tail)[k] == tail[i];
    }
  }

  /** Extracted unit `k` is digit `k % u` of element `k / u`. */
  lemma ExtractAt(xs: seq<int>, base: nat, u: nat, n: nat, k: nat)
    requires base > 1 && u >= 1 && n <= |xs| * u && k < n
    ensures k / u < |xs|
    ensures Extract(xs, base, u, n)[k] == Digits(xs[k / u], base, u)[k % u]
  {
    LowDigitsAt(xs, base, u, k);
  }
}
