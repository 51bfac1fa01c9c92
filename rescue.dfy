/** The Rescue parameters and the Rescue permutation: round-constant addition, the alternating
    power-map S-box and the MDS mixing step, together with the POW constraints the S-box emits. */
module Rescue {
  import opened Field

  /** The sponge parameters (RescueConfig), together with the modulus p of the prime field and its
      bit size, which the source takes from the field type. */
  datatype Config = Config(
    modulus: nat,
    modulusBitSize: nat,
    alpha: nat,
    alphaInv: nat,
    mds: seq<seq<int>>,
    arc: seq<seq<int>>,
    rate: nat,
    capacity: nat,
    outputSize: nat)
  {
    /** Length of the sponge state. */
    function Width(): nat {
      rate + capacity
    }

    /** The dimensions agree with the state length, the rate is positive and there is at least the
        initial round-constant vector. */
    predicate WellFormed() {
      && modulus >= 2
      && modulusBitSize >= 2
      && rate >= 1
      && |mds| == Width()
      && (forall i :: 0 <= i < |mds| ==> |mds[i]| == Width())
      && |arc| >= 1
      && (forall r :: 0 <= r < |arc| ==> |arc[r]| == Width())
    }

    /** Raising to `alphaInv` is undone by raising to `alpha`: the configuration's promise that
        alpha * alphaInv is 1 modulo p - 1, stated on field elements. */
    predicate InverseExponents()
      requires modulus > 0
    {
      forall x :: 0 <= x < modulus ==> Pow(Pow(x, alphaInv, modulus), alpha, modulus) == x
    }
  }

  /** Parameters whose dimensions fit together. */
  type ValidConfig = c: Config | c.WellFormed() witness Config(2, 2, 1, 1, [[0]], [[0]], 1, 0, 1)

  /** Adds `key[i]` to slot `i`. */
  function Ark(s: seq<int>, key: seq<int>, p: nat): (r: seq<int>)
    requires p > 0 && |key| >= |s|
    ensures |r| == |s| && Reduced(r, p)
  {
    seq(|s|, i requires 0 <= i < |s| => (s[i] + key[i]) % p)
  }

  /** Raises every slot to the power `e`. */
  function SBox(s: seq<int>, e: nat, p: nat): (r: seq<int>)
    requires p > 0
    ensures |r| == |s| && Reduced(r, p)
  {
    seq(|s|, i requires 0 <= i < |s| => Pow(s[i], e, p))
  }

  /** The running sum of row[k] * s[k] over k < j, as the inner loop of the MDS step accumulates it. */
  function DotPrefix(row: seq<int>, s: seq<int>, j: nat, p: nat): (r: int)
    requires p > 0 && j <= |s| && j <= |row|
    ensures 0 <= r < p
  {
    if j == 0 then 0 else (DotPrefix(row, s, j - 1, p) + s[j - 1] * row[j - 1]) % p
  }

  /** The matrix-vector product of `m` and `s`. */
  function Mds(s: seq<int>, m: seq<seq<int>>, p: nat): (r: seq<int>)
    requires p > 0 && |m| >= |s|
    requires forall i :: 0 <= i < |s| ==> |m[i]| >= |s|
    ensures |r| == |s| && Reduced(r, p)
  {
    seq(|s|, i requires 0 <= i < |s| => DotPrefix(m[i], s, |s|, p))
  }

  /** Even rounds use the inverse exponent, odd rounds the forward one. */
  function RoundExponent(c: ValidConfig, round: nat): nat {
    if round % 2 == 0 then c.alphaInv else c.alpha
  }

  /** The little-endian 64-bit digits of `x`, as `to_u64_digits` yields them: none for zero. */
  function U64Digits(x: nat): (r: seq<nat>)
    ensures r == [] <==> x == 0
    decreases x
  {
    if x == 0 then [] else [x % 0x1_0000_0000_0000_0000] + U64Digits(x / 0x1_0000_0000_0000_0000)
  }

  /** A number's 64-bit digits are the single digit `a < 2^64` exactly when the number is `a` and
      `a` is not zero. */
  lemma U64DigitsSingle(x: nat, a: nat)
    requires a < 0x1_0000_0000_0000_0000
    ensures U64Digits(x) == [a] <==> x == a && a != 0
  {
    if x != 0 {
      var high := U64Digits(x / 0x1_0000_0000_0000_0000);
      assert U64Digits(x) == [x % 0x1_0000_0000_0000_0000] + high;
      if x < 0x1_0000_0000_0000_0000 {
        assert x / 0x1_0000_0000_0000_0000 == 0 && x % 0x1_0000_0000_0000_0000 == x;
        assert high == [] && U64Digits(x) == [x];
        assert U64Digits(x) == [a] ==> U64Digits(x)[0] == a;
      } else {
        assert high != [] && |U64Digits(x)| >= 2;
      }
    }
  }

  /** Whether round `round`'s S-box takes the forward branch, which compares the exponent it is
      given with `[alpha]`: odd rounds pass `[alpha]` itself, even rounds the 64-bit digits of
      `alphaInv`, which equal `[alpha]` only when alphaInv == alpha != 0 (zero has no digits). */
  function RoundForward(c: Config, round: nat): (r: bool)
    ensures c.alpha < 0x1_0000_0000_0000_0000 ==>
      (r <==> (if round % 2 == 0 then U64Digits(c.alphaInv) else [c.alpha]) == [c.alpha])
  {
    var forward := round % 2 == 1 || (c.alpha != 0 && c.alphaInv == c.alpha);
    assert c.alpha < 0x1_0000_0000_0000_0000 ==>
      (forward <==> (if round % 2 == 0 then U64Digits(c.alphaInv) else [c.alpha]) == [c.alpha]) by {
      if c.alpha < 0x1_0000_0000_0000_0000 {
        U64DigitsSingle(c.alphaInv, c.alpha);
      }
    }
    forward
  }

  /** One round: S-box, mixing, then the round's constants `arc[round + 1]`. */
  function Round(c: ValidConfig, s: seq<int>, round: nat): (r: seq<int>)
    requires |s| == c.Width() && round + 1 < |c.arc|
    ensures |r| == |s| && Reduced(r, c.modulus)
  {
    Ark(Mds(SBox(s, RoundExponent(c, round), c.modulus), c.mds, c.modulus), c.arc[round + 1], c.modulus)
  }

  /** The rounds `round`, `round + 1`, ... over the remaining round-constant vectors. */
  function RoundsFrom(c: ValidConfig, s: seq<int>, round: nat): (r: seq<int>)
    requires |s| == c.Width() && round < |c.arc|
    ensures |r| == |s|
    ensures Reduced(s, c.modulus) ==> Reduced(r, c.modulus)
    decreases |c.arc| - round
  {
    if round + 1 == |c.arc| then s else RoundsFrom(c, Round(c, s, round), round + 1)
  }

  /** The Rescue permutation: the constants `arc[0]`, then one round per remaining vector. */
  function Permutation(c: ValidConfig, s: seq<int>): (r: seq<int>)
    requires |s| == c.Width()
    ensures |r| == |s| && Reduced(r, c.modulus)
  {
    RoundsFrom(c, Ark(s, c.arc[0], c.modulus), 0)
  }

  /** The POW pairs one S-box step emits for `before` and its image `after`: `(old, new)` in the
      forward direction and `(new, old)` in the inverse one. A pair (a, b) stands for a^alpha = b. */
  function PowPairs(before: seq<int>, after: seq<int>, forward: bool): (r: seq<(int, int)>)
    requires |before| == |after|
    ensures |r| == |before|
  {
    seq(|before|, k requires 0 <= k < |before| =>
      if forward then (before[k], after[k]) else (after[k], before[k]))
  }

  /** The POW pairs emitted by the rounds `round`, `round + 1`, ... */
  function RoundsLog(c: ValidConfig, s: seq<int>, round: nat): seq<(int, int)>
    requires |s| == c.Width() && round < |c.arc|
    decreases |c.arc| - round
  {
    if round + 1 == |c.arc| then []
    else
      var e := RoundExponent(c, round);
      PowPairs(s, SBox(s, e, c.modulus), RoundForward(c, round)) + RoundsLog(c, Round(c, s, round), round + 1)
  }

  /** The POW pairs emitted by one permutation of `s`. */
  function PermutationLog(c: ValidConfig, s: seq<int>): seq<(int, int)>
    requires |s| == c.Width()
  {
    RoundsLog(c, Ark(s, c.arc[0], c.modulus), 0)
  }

  /** One more round of `RoundsFrom` and `RoundsLog`. */
  lemma RoundsStep(c: ValidConfig, s: seq<int>, round: nat)
    requires |s| == c.Width() && round + 1 < |c.arc|
    ensures RoundsFrom(c, s, round) == RoundsFrom(c, Round(c, s, round), round + 1)
    ensures RoundsLog(c, s, round) ==
      PowPairs(s, SBox(s, RoundExponent(c, round), c.modulus), RoundForward(c, round))
      + RoundsLog(c, Round(c, s, round), round + 1)
  {
  }

  /** No rounds are left once the constant vectors are used up. */
  lemma RoundsDone(c: ValidConfig, s: seq<int>, round: nat)
    requires |s| == c.Width() && round + 1 == |c.arc|
    ensures RoundsFrom(c, s, round) == s && RoundsLog(c, s, round) == []
  {
  }

  /** The POW constraint a^alpha = b holds of `pair`. */
  predicate PowHolds(c: ValidConfig, pair: (int, int))
    requires c.modulus > 0
  {
    Pow(pair.0, c.alpha, c.modulus) == pair.1
  }

  /** Every POW constraint in `pairs` holds. */
  predicate AllHold(c: ValidConfig, pairs: seq<(int, int)>)
    requires c.modulus > 0
  {
    forall k :: 0 <= k < |pairs| ==> PowHolds(c, pairs[k])
  }

  /** The constraints of two logs hold together when they hold separately. */
  lemma AllHoldAppend(c: ValidConfig, xs: seq<(int, int)>, ys: seq<(int, int)>)
    requires AllHold(c, xs) && AllHold(c, ys)
    ensures AllHold(c, xs + ys)
  {
    forall k | 0 <= k < |xs + ys|
      ensures PowHolds(c, (xs + ys)[k])
    {
      if k >= |xs| {
        assert (xs + ys)[k] == ys[k - |xs|];
      }
    }
  }

  /** Each pair the S-box step of a round emits satisfies its POW constraint, in both branches. */
  lemma SBoxPairsHold(c: ValidConfig, s: seq<int>, round: nat)
    requires c.InverseExponents() && Reduced(s, c.modulus)
    ensures AllHold(c, PowPairs(s, SBox(s, RoundExponent(c, round), c.modulus), RoundForward(c, round)))
  {
    var e := RoundExponent(c, round);
    var t := SBox(s, e, c.modulus);
    var pairs := PowPairs(s, t, RoundForward(c, round));
    forall k | 0 <= k < |pairs|
      ensures PowHolds(c, pairs[k])
    {
      if !RoundForward(c, round) {
        assert 0 <= s[k] < c.modulus;
        assert t[k] == Pow(s[k], c.alphaInv, c.modulus);
      }
    }
  }

  /** Every POW pair the remaining rounds emit holds. */
  lemma {:induction false} RoundsLogHolds(c: ValidConfig, s: seq<int>, round: nat)
    requires c.InverseExponents() && |s| == c.Width() && Reduced(s, c.modulus)
    requires round < |c.arc|
    ensures AllHold(c, RoundsLog(c, s, round))
    decreases |c.arc| - round
  {
    if round + 1 < |c.arc| {
      var e := RoundExponent(c, round);
      var head := PowPairs(s, SBox(s, e, c.modulus), RoundForward(c, round));
      var tail := RoundsLog(c, Round(c, s, round), round + 1);
      SBoxPairsHold(c, s, round);
      RoundsLogHolds(c, Round(c, s, round), round + 1);
      assert RoundsLog(c, s, round) == head + tail;
      AllHoldAppend(c, head, tail);
    }
  }

  /** Every POW pair one permutation emits holds: the S-box constraints of a permutation are
      satisfied by the values the gadget assigns. */
  lemma PermutationLogHolds(c: ValidConfig, s: seq<int>)
    requires c.InverseExponents() && |s| == c.Width()
    ensures AllHold(c, PermutationLog(c, s))
  {
    RoundsLogHolds(c, Ark(s, c.arc[0], c.modulus), 0);
  }
}
