/** The duplex automaton of the Rescue sponge on values: what the gadget's state vector and mode
    hold after each operation, and what a squeeze returns. This is also the native sponge's
    behaviour, since every circuit variable is modelled by its value. */
module Duplex {
  import opened Field
  import opened Rescue

  /** The sponge's mode and the next rate-window index it will use. */
  datatype Mode = Absorbing(nextAbsorbIndex: nat) | Squeezing(nextSqueezeIndex: nat)
  {
    function Index(): nat {
      match this
      case Absorbing(i) => i
      case Squeezing(i) => i
    }
  }

  /** The state vector and the mode. */
  datatype Sponge = Sponge(state: seq<int>, mode: Mode)

  /** What a squeeze returns, and the sponge after it. */
  datatype Squeezed = Squeezed(out: seq<int>, after: Sponge)

  /** The state has `rate + capacity` field elements and the mode index stays within the rate. */
  predicate SpongeValid(c: ValidConfig, d: Sponge) {
    |d.state| == c.Width() && Reduced(d.state, c.modulus) && d.mode.Index() <= c.rate
  }

  /** A fresh sponge: `rate + capacity` zero slots, absorbing from index 0. */
  function Init(c: ValidConfig): (d: Sponge)
    ensures SpongeValid(c, d) && d.mode == Absorbing(0)
    ensures forall i :: 0 <= i < |d.state| ==> d.state[i] == 0
  {
    Sponge(seq(c.Width(), _ => 0), Absorbing(0))
  }

  /** Adds `xs[k]` to slot `offset + k`. */
  function AddAt(s: seq<int>, offset: nat, xs: seq<int>, p: nat): (r: seq<int>)
    requires p > 0 && offset + |xs| <= |s|
    ensures |r| == |s|
    ensures Reduced(s, p) ==> Reduced(r, p)
  {
    seq(|s|, j requires 0 <= j < |s| =>
      if offset <= j < offset + |xs| then (s[j] + xs[j - offset]) % p else s[j])
  }

  /** How many times a chunked loop over `n` items, starting at window index `start`, fills the
      rate window and permutes before the rest fits. */
  function ChunkPermutes(rate: nat, start: nat, n: nat): nat
    requires rate >= 1 && start <= rate
    decreases n, start
  {
    if start + n <= rate then 0 else 1 + ChunkPermutes(rate, 0, n - (rate - start))
  }

  /** Absorbs `xs` into the rate window from index `start`, permuting each time the window fills. */
  function AbsorbInternal(c: ValidConfig, s: seq<int>, start: nat, xs: seq<int>): (d: Sponge)
    requires |s| == c.Width() && start <= c.rate
    ensures |d.state| == |s|
    ensures Reduced(s, c.modulus) ==> Reduced(d.state, c.modulus)
    ensures d.mode.Absorbing? && d.mode.nextAbsorbIndex <= c.rate
    decreases |xs|, start
  {
    if start + |xs| <= c.rate then
      Sponge(AddAt(s, c.capacity + start, xs, c.modulus), Absorbing(start + |xs|))
    else
      var n := c.rate - start;
      AbsorbInternal(c, Permutation(c, AddAt(s, c.capacity + start, xs[..n], c.modulus)), 0, xs[n..])
  }

  /** Absorbs `xs`: nothing happens for empty input; otherwise a squeezing sponge, or an absorbing
      one whose window is full, permutes once and starts again from index 0. */
  function Absorb(c: ValidConfig, d: Sponge, xs: seq<int>): (r: Sponge)
    requires SpongeValid(c, d)
    ensures SpongeValid(c, r)
    ensures |xs| == 0 ==> r == d
    ensures |xs| > 0 ==> r.mode.Absorbing?
  {
    if |xs| == 0 then d
    else
      match d.mode
      case Absorbing(i) =>
        if i == c.rate then AbsorbInternal(c, Permutation(c, d.state), 0, xs)
        else AbsorbInternal(c, d.state, i, xs)
      case Squeezing(_) => AbsorbInternal(c, Permutation(c, d.state), 0, xs)
  }

  /** The number of permutations `Absorb` performs for `n` elements from mode `m`. */
  function AbsorbPermutes(c: ValidConfig, m: Mode, n: nat): nat
    requires c.rate >= 1 && m.Index() <= c.rate
  {
    if n == 0 then 0
    else
      match m
      case Absorbing(i) =>
        if i == c.rate then 1 + ChunkPermutes(c.rate, 0, n) else ChunkPermutes(c.rate, i, n)
      case Squeezing(_) => 1 + ChunkPermutes(c.rate, 0, n)
  }

  /** Squeezes `n` elements from the rate window starting at index `start`, permuting between
      chunks. */
  function SqueezeInternal(c: ValidConfig, s: seq<int>, start: nat, n: nat): (r: Squeezed)
    requires |s| == c.Width() && start <= c.rate
    ensures |r.out| == n && |r.after.state| == |s|
    ensures Reduced(s, c.modulus) ==> Reduced(r.after.state, c.modulus)
    ensures r.after.mode.Squeezing? && r.after.mode.nextSqueezeIndex <= c.rate
    decreases n, start
  {
    if start + n <= c.rate then
      Squeezed(s[c.capacity + start .. c.capacity + start + n], Sponge(s, Squeezing(start + n)))
    else
      var k := c.rate - start;
      var rest := SqueezeInternal(c, Permutation(c, s), 0, n - k);
      Squeezed(s[c.capacity + start .. c.capacity + c.rate] + rest.out, rest.after)
  }

  /** The squeeze loop as the source writes it: between chunks it permutes only when the number
      of outputs still wanted differs from the rate. */
  function SqueezeInternalAsWritten(c: ValidConfig, s: seq<int>, start: nat, n: nat): (r: Squeezed)
    requires |s| == c.Width() && start <= c.rate
    ensures |r.out| == n && |r.after.state| == |s|
    ensures r.after.mode.Squeezing? && r.after.mode.nextSqueezeIndex <= c.rate
    decreases n, start
  {
    if start + n <= c.rate then
      Squeezed(s[c.capacity + start .. c.capacity + start + n], Sponge(s, Squeezing(start + n)))
    else
      var k := c.rate - start;
      var next := if n != c.rate then Permutation(c, s) else s;
      var rest := SqueezeInternalAsWritten(c, next, 0, n - k);
      Squeezed(s[c.capacity + start .. c.capacity + c.rate] + rest.out, rest.after)
  }

  /** Squeezes `n` elements: an absorbing sponge, or a squeezing one whose window is used up,
      permutes once and reads from index 0. */
  function Squeeze(c: ValidConfig, d: Sponge, n: nat): (r: Squeezed)
    requires SpongeValid(c, d)
    ensures |r.out| == n && SpongeValid(c, r.after) && r.after.mode.Squeezing?
  {
    match d.mode
    case Absorbing(_) => SqueezeInternal(c, Permutation(c, d.state), 0, n)
    case Squeezing(i) =>
      if i == c.rate then SqueezeInternal(c, Permutation(c, d.state), 0, n)
      else SqueezeInternal(c, d.state, i, n)
  }

  /** `Squeeze` over the squeeze loop as written. */
  function SqueezeAsWritten(c: ValidConfig, d: Sponge, n: nat): (r: Squeezed)
    requires SpongeValid(c, d)
    ensures |r.out| == n && r.after.mode.Squeezing? && r.after.mode.nextSqueezeIndex <= c.rate
    ensures |r.after.state| == c.Width()
  {
    match d.mode
    case Absorbing(_) => SqueezeInternalAsWritten(c, Permutation(c, d.state), 0, n)
    case Squeezing(i) =>
      if i == c.rate then SqueezeInternalAsWritten(c, Permutation(c, d.state), 0, n)
      else SqueezeInternalAsWritten(c, d.state, i, n)
  }

  /** The number of permutations `Squeeze` performs for `n` elements from mode `m`. */
  function SqueezePermutes(c: ValidConfig, m: Mode, n: nat): nat
    requires c.rate >= 1 && m.Index() <= c.rate
  {
    match m
    case Absorbing(_) => 1 + ChunkPermutes(c.rate, 0, n)
    case Squeezing(i) =>
      if i == c.rate then 1 + ChunkPermutes(c.rate, 0, n) else ChunkPermutes(c.rate, i, n)
  }
}
