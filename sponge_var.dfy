/** The Rescue sponge gadget: a duplex sponge over circuit variables that updates its state vector
    in place and records, in its constraint system, one POW constraint per S-box slot. Circuit
    variables are modelled by the values they carry. */
module SpongeGadget {
  import opened Field
  import opened Rescue
  import opened Duplex
  import opened DuplexProperties
  import opened Extraction

  /** The part of a constraint system the sponge writes to: the POW constraints, as pairs (a, b)
      standing for a^alpha = b. */
  class ConstraintSystem {
    var pows: seq<(int, int)>

    constructor()
      ensures pows == []
    {
      pows := [];
    }

    /** Records the constraint a^alpha = b. */
    method EnforcePow(a: int, b: int)
      modifies this
      ensures pows == old(pows) + [(a, b)]
    {
      pows := pows + [(a, b)];
    }
  }

  /** Raises every slot to `exponent` modulo `p`, recording one POW pair per slot in `cs`:
      (old, new) when the exponent is alpha itself and (new, old) when it is alpha's inverse. */
  method ApplySBox(cs: ConstraintSystem, a: array<int>, exponent: nat, forward: bool, p: nat)
    requires p > 0
    modifies a, cs
    ensures a[..] == SBox(old(a[..]), exponent, p)
    ensures cs.pows == old(cs.pows) + PowPairs(old(a[..]), a[..], forward)
  {
    var i := 0;
    while i < a.Length
      invariant 0 <= i <= a.Length
      invariant forall k :: 0 <= k < i ==> a[k] == Pow(old(a[k]), exponent, p)
      invariant forall k :: i <= k < a.Length ==> a[k] == old(a[k])
      invariant cs.pows == old(cs.pows) + PowPairs(old(a[..i]), a[..i], forward)
    {
      var x := a[i];
      var y := Pow(x, exponent, p);
      if forward {
        cs.EnforcePow(x, y);
      } else {
        cs.EnforcePow(y, x);
      }
      a[i] := y;
      assert PowPairs(old(a[..i + 1]), a[..i + 1], forward) ==
        PowPairs(old(a[..i]), a[..i], forward) + [if forward then (x, y) else (y, x)];
      i := i + 1;
    }
    assert a[..] == a[..a.Length];
    assert old(a[..]) == old(a[..a.Length]);
  }

  /** Adds the round key `key[i]` to slot `i`, modulo `p`. */
  method ApplyArk(a: array<int>, key: seq<int>, p: nat)
    requires p > 0 && |key| >= a.Length
    modifies a
    ensures a[..] == Ark(old(a[..]), key, p)
  {
    var i := 0;
    while i < a.Length
      invariant 0 <= i <= a.Length
      invariant forall k :: 0 <= k < i ==> a[k] == (old(a[k]) + key[k]) % p
      invariant forall k :: i <= k < a.Length ==> a[k] == old(a[k])
    {
      a[i] := (a[i] + key[i]) % p;
      i := i + 1;
    }
  }

  /** One row of the MDS matrix times the state: the inner loop of the MDS step. */
  method MdsRow(a: array<int>, row: seq<int>, p: nat) returns (cur: int)
    requires p > 0 && |row| >= a.Length
    ensures cur == DotPrefix(row, a[..], a.Length, p)
  {
    cur := 0;
    var j := 0;
    while j < a.Length
      invariant 0 <= j <= a.Length
      invariant cur == DotPrefix(row, a[..], j, p)
    {
      cur := (cur + a[j] * row[j]) % p;
      j := j + 1;
    }
  }

  /** Replaces the state by its product with the matrix `m`, modulo `p`. */
  method ApplyMds(a: array<int>, m: seq<seq<int>>, p: nat)
    requires p > 0 && |m| >= a.Length
    requires forall i :: 0 <= i < a.Length ==> |m[i]| >= a.Length
    modifies a
    ensures a[..] == Mds(old(a[..]), m, p)
  {
    ghost var s := a[..];
    var newState: seq<int> := [];
    var i := 0;
    while i < a.Length
      invariant 0 <= i <= a.Length && |newState| == i && a[..] == s
      invariant forall k :: 0 <= k < i ==> newState[k] == Mds(s, m, p)[k]
    {
      var cur := MdsRow(a, m[i], p);
      newState := newState + [cur];
      i := i + 1;
    }
    forall k | 0 <= k < a.Length {
      a[k] := newState[k];
    }
    assert a[..] == newState;
  }

  /** Round `round` of the permutation on the state held in `a`: the S-box with the round's
      exponent and direction, the MDS step, then the constants `arc[round + 1]`. */
  method ApplyRound(cs: ConstraintSystem, c: ValidConfig, a: array<int>, round: nat)
    requires a.Length == c.Width() && round + 1 < |c.arc|
    modifies a, cs
    ensures a[..] == Round(c, old(a[..]), round)
    ensures cs.pows == old(cs.pows) +
      PowPairs(old(a[..]), SBox(old(a[..]), RoundExponent(c, round), c.modulus), RoundForward(c, round))
  {
    ApplySBox(cs, a, RoundExponent(c, round), RoundForward(c, round), c.modulus);
    ApplyMds(a, c.mds, c.modulus);
    ApplyArk(a, c.arc[round + 1], c.modulus);
  }

  /** The Rescue permutation of the state held in `a`: the constants `arc[0]`, then one round
      per further constant vector. */
  method PermuteArray(cs: ConstraintSystem, c: ValidConfig, a: array<int>)
    requires a.Length == c.Width()
    modifies a, cs
    ensures a[..] == Permutation(c, old(a[..]))
    ensures cs.pows == old(cs.pows) + PermutationLog(c, old(a[..]))
  {
    ghost var st := a[..];
    ApplyArk(a, c.arc[0], c.modulus);
    var round := 0;
    while round + 1 < |c.arc|
      invariant round < |c.arc| && a.Length == c.Width()
      invariant RoundsFrom(c, a[..], round) == Permutation(c, st)
      invariant cs.pows + RoundsLog(c, a[..], round) == old(cs.pows) + PermutationLog(c, st)
      decreases |c.arc| - round
    {
      ghost var before := a[..];
      ghost var pows := cs.pows;
      ApplyRound(cs, c, a, round);
      RoundsStep(c, before, round);
      AppendAssoc(pows, cs.pows[|pows|..], RoundsLog(c, a[..], round + 1));
      round := round + 1;
    }
    RoundsDone(c, a[..], round);
  }

  /** The low `u` base-`base` digits of each element of `src`, in order: the buffer the byte and
      bit extraction loops extend before truncating. */
  method CollectDigits(src: seq<int>, base: nat, u: nat) returns (buf: seq<nat>)
    requires base > 1
    ensures buf == LowDigits(src, base, u)
  {
    buf := [];
    var i := 0;
    while i < |src|
      invariant 0 <= i <= |src| && buf == LowDigits(src[..i], base, u)
    {
      assert src[..i + 1][..i] == src[..i];
      buf := buf + Digits(src[i], base, u);
      i := i + 1;
    }
    assert src[..i] == src;
  }

  /** The squeeze loop in accumulator form: `acc` is what has been copied so far. */
  ghost function SqueezeAcc(c: ValidConfig, s: seq<int>, start: nat, n: nat, acc: seq<int>): Squeezed
    requires |s| == c.Width() && start <= c.rate
    decreases n, start
  {
    if start + n <= c.rate then
      Squeezed(acc + s[c.capacity + start .. c.capacity + start + n], Sponge(s, Squeezing(start + n)))
    else
      var k := c.rate - start;
      SqueezeAcc(c, Permutation(c, s), 0, n - k, acc + s[c.capacity + start .. c.capacity + c.rate])
  }

  /** The accumulator form yields `acc` followed by what `SqueezeInternal` yields. */
  lemma {:induction false} SqueezeAccInternal(c: ValidConfig, s: seq<int>, start: nat, n: nat, acc: seq<int>)
    requires |s| == c.Width() && start <= c.rate
    ensures var r := Duplex.SqueezeInternal(c, s, start, n);
      SqueezeAcc(c, s, start, n, acc) == Squeezed(acc + r.out, r.after)
    decreases n, start
  {
    if start + n > c.rate {
      var k := c.rate - start;
      var window := s[c.capacity + start .. c.capacity + c.rate];
      SqueezeStep(c, s, start, n, n - k);
      SqueezeAccInternal(c, Permutation(c, s), 0, n - k, acc + window);
      AppendAssoc(acc, window, Duplex.SqueezeInternal(c, Permutation(c, s), 0, n - k).out);
    }
  }

  /** The sponge gadget: its constraint system, its parameters, its state vector and its mode. */
  class RescueSpongeVar {
    const cs: ConstraintSystem
    const parameters: ValidConfig
    var state: seq<int>
    var mode: Mode
    /** How many times the permutation has run. */
    ghost var permutations: nat

    /** The state vector and mode as a value of the duplex automaton. */
    function Current(): Sponge
      reads this
    {
      Sponge(state, mode)
    }

    /** The state has `rate + capacity` field elements and the mode index lies within the rate. */
    ghost predicate Valid()
      reads this
    {
      SpongeValid(parameters, Current())
    }

    /** All POW constraints recorded so far hold. */
    ghost predicate Satisfied()
      reads this, cs
    {
      AllHold(parameters, cs.pows)
    }

    /** A fresh sponge: zero state, absorbing from index 0. */
    constructor(cs: ConstraintSystem, parameters: ValidConfig)
      ensures this.cs == cs && this.parameters == parameters
      ensures Current() == Init(parameters) && Valid()
      ensures permutations == 0
    {
      this.cs := cs;
      this.parameters := parameters;
      state := seq(parameters.Width(), _ => 0);
      mode := Absorbing(0);
      permutations := 0;
    }

    /** The Rescue permutation of the state, on a copy of it. */
    method Permute()
      requires Valid()
      modifies this, cs
      ensures state == Permutation(parameters, old(state)) && mode == old(mode)
      ensures cs.pows == old(cs.pows) + PermutationLog(parameters, old(state))
      ensures permutations == old(permutations) + 1
      ensures Valid()
      ensures parameters.InverseExponents() && old(Satisfied()) ==> Satisfied()
    {
      var c := parameters;
      var st := state;
      var a := new int[|st|](k requires 0 <= k < |st| => st[k]);
      assert a[..] == st;
      PermuteArray(cs, c, a);
      state := a[..];
      permutations := permutations + 1;
      if c.InverseExponents() && old(Satisfied()) {
        PermutationLogHolds(c, st);
        AllHoldAppend(c, old(cs.pows), PermutationLog(c, st));
      }
    }

    /** Adds `xs[i]` to rate slot `start + i`, that is state slot `capacity + start + i`. */
    method AddToRate(start: nat, xs: seq<int>)
      requires Valid() && start + |xs| <= parameters.rate
      modifies this
      ensures state == AddAt(old(state), parameters.capacity + start, xs, parameters.modulus)
      ensures mode == old(mode) && permutations == old(permutations) && Valid()
    {
      var offset, p := parameters.capacity + start, parameters.modulus;
      var s := state;
      var i := 0;
      while i < |xs|
        invariant 0 <= i <= |xs| && |s| == |old(state)|
        invariant forall j :: 0 <= j < |s| ==>
          s[j] == if offset <= j < offset + i then (old(state)[j] + xs[j - offset]) % p else old(state)[j]
      {
        s := s[offset + i := (s[offset + i] + xs[i]) % p];
        i := i + 1;
      }
      assert s == AddAt(old(state), offset, xs, p);
      state := s;
    }

    /** Absorbs `elements` from rate index `rateStartIndex`: whenever they do not fit in what is
        left of the window, fills the window, permutes and goes on from index 0; the rest is
        added in place and the mode records where absorbing stopped. */
    method AbsorbInternal(rateStartIndex: nat, elements: seq<int>)
      requires Valid() && rateStartIndex <= parameters.rate
      modifies this, cs
      ensures Current() == Duplex.AbsorbInternal(parameters, old(state), rateStartIndex, elements)
      ensures permutations == old(permutations) + ChunkPermutes(parameters.rate, rateStartIndex, |elements|)
      ensures Valid()
      ensures parameters.InverseExponents() && old(Satisfied()) ==> Satisfied()
      ensures old(cs.pows) <= cs.pows
    {
      var c: ValidConfig := parameters;
      ghost var target := Duplex.AbsorbInternal(c, state, rateStartIndex, elements);
      ghost var count := permutations + ChunkPermutes(c.rate, rateStartIndex, |elements|);
      var start: nat := rateStartIndex;
      var remaining := elements;
      while c.rate < start + |remaining|
        invariant start <= c.rate && Valid()
        invariant Duplex.AbsorbInternal(c, state, start, remaining) == target
        invariant permutations + ChunkPermutes(c.rate, start, |remaining|) == count
        invariant c.InverseExponents() && old(Satisfied()) ==> Satisfied()
        invariant old(cs.pows) <= cs.pows
        decreases |remaining|, start
      {
        var n := c.rate - start;
        AddToRate(start, remaining[..n]);
        Permute();
        remaining := remaining[n..];
        start := 0;
      }
      AddToRate(start, remaining);
      mode := Absorbing(start + |remaining|);
    }

    /** Squeezes `n` elements from rate index `rateStartIndex`: copies what is left of the
        window, permutes and goes on from index 0 until the rest fits, and records in the mode
        where squeezing stopped. */
    method SqueezeInternal(rateStartIndex: nat, n: nat) returns (output: seq<int>)
      requires Valid() && rateStartIndex <= parameters.rate
      modifies this, cs
      ensures var r := Duplex.SqueezeInternal(parameters, old(state), rateStartIndex, n);
        output == r.out && Current() == r.after
      ensures permutations == old(permutations) + ChunkPermutes(parameters.rate, rateStartIndex, n)
      ensures Valid()
      ensures parameters.InverseExponents() && old(Satisfied()) ==> Satisfied()
      ensures old(cs.pows) <= cs.pows
    {
      var c: ValidConfig := parameters;
      SqueezeAccInternal(c, state, rateStartIndex, n, []);
      ghost var target := SqueezeAcc(c, state, rateStartIndex, n, []);
      ghost var count := permutations + ChunkPermutes(c.rate, rateStartIndex, n);
      output := [];
      var start: nat := rateStartIndex;
      var remaining: nat := n;
      while c.rate < start + remaining
        invariant Valid() && start <= c.rate
        invariant SqueezeAcc(c, state, start, remaining, output) == target
        invariant permutations + ChunkPermutes(c.rate, start, remaining) == count
        invariant c.InverseExponents() && old(Satisfied()) ==> Satisfied()
        invariant old(cs.pows) <= cs.pows
        decreases remaining, start
      {
        var k := c.rate - start;
        output := output + state[c.capacity + start .. c.capacity + c.rate];
        Permute();
        remaining := remaining - k;
        start := 0;
      }
      output := output + state[c.capacity + start .. c.capacity + start + remaining];
      mode := Squeezing(start + remaining);
    }

    /** Squeezes `numElements` field elements: an absorbing sponge, or a squeezing one whose
        window is used up, permutes first and squeezes from index 0. */
    method SqueezeFieldElements(numElements: nat) returns (elements: seq<int>)
      requires Valid()
      modifies this, cs
      ensures var r := Squeeze(parameters, old(Current()), numElements);
        elements == r.out && Current() == r.after
      ensures permutations == old(permutations) + SqueezePermutes(parameters, old(mode), numElements)
      ensures Valid()
      ensures parameters.InverseExponents() && old(Satisfied()) ==> Satisfied()
      ensures old(cs.pows) <= cs.pows
    {
      match mode
      case Absorbing(_) =>
        Permute();
        elements := SqueezeInternal(0, numElements);
      case Squeezing(i) =>
        var squeezeIndex := i;
        if squeezeIndex == parameters.rate {
          Permute();
          squeezeIndex := 0;
        }
        elements := SqueezeInternal(squeezeIndex, numElements);
    }

    /** Absorbs `input`: nothing happens for empty input; otherwise a squeezing sponge, or an
        absorbing one whose window is full, permutes first and absorbs from index 0. */
    method Absorb(input: seq<int>)
      requires Valid()
      modifies this, cs
      ensures Current() == Duplex.Absorb(parameters, old(Current()), input)
      ensures permutations == old(permutations) + AbsorbPermutes(parameters, old(mode), |input|)
      ensures |input| == 0 ==> cs.pows == old(cs.pows)
      ensures Valid()
      ensures parameters.InverseExponents() && old(Satisfied()) ==> Satisfied()
      ensures old(cs.pows) <= cs.pows
    {
      if |input| == 0 {
        return;
      }
      match mode
      case Absorbing(i) =>
        var absorbIndex := i;
        if absorbIndex == parameters.rate {
          Permute();
          absorbIndex := 0;
        }
        AbsorbInternal(absorbIndex, input);
      case Squeezing(_) =>
        Permute();
        AbsorbInternal(0, input);
    }

    /** Squeezes `numBytes` bytes: enough field elements that each, keeping only its low
        `(MODULUS_BIT_SIZE - 1) / 8` little-endian bytes, covers the request, cut to exactly
        `numBytes`. */
    method SqueezeBytes(numBytes: nat) returns (bytes: seq<nat>)
      requires Valid() && parameters.modulusBitSize >= 9
      modifies this, cs
      ensures var u := UsableBytes(parameters.modulusBitSize);
        var r := Squeeze(parameters, old(Current()), ElementsFor(numBytes, u));
        bytes == Extract(r.out, 256, u, numBytes) && Current() == r.after
      ensures permutations == old(permutations) +
        SqueezePermutes(parameters, old(mode), ElementsFor(numBytes, UsableBytes(parameters.modulusBitSize)))
      ensures Valid()
      ensures parameters.InverseExponents() && old(Satisfied()) ==> Satisfied()
      ensures old(cs.pows) <= cs.pows
    {
      var usableBytes := (parameters.modulusBitSize - 1) / 8;
      assert usableBytes == UsableBytes(parameters.modulusBitSize) >= 1;
      var numElements := (numBytes + usableBytes - 1) / usableBytes;
      assert numElements == ElementsFor(numBytes, usableBytes);
      var srcElements := SqueezeFieldElements(numElements);
      bytes := CollectDigits(srcElements, 256, usableBytes);
      bytes := bytes[..numBytes];
    }

    /** Squeezes `numBits` bits: enough field elements that each, keeping only its low
        `MODULUS_BIT_SIZE - 1` little-endian bits, covers the request, cut to exactly `numBits`. */
    method SqueezeBits(numBits: nat) returns (bits: seq<nat>)
      requires Valid()
      modifies this, cs
      ensures var u := UsableBits(parameters.modulusBitSize);
        var r := Squeeze(parameters, old(Current()), ElementsFor(numBits, u));
        bits == Extract(r.out, 2, u, numBits) && Current() == r.after
      ensures permutations == old(permutations) +
        SqueezePermutes(parameters, old(mode), ElementsFor(numBits, UsableBits(parameters.modulusBitSize)))
      ensures Valid()
      ensures parameters.InverseExponents() && old(Satisfied()) ==> Satisfied()
      ensures old(cs.pows) <= cs.pows
    {
      var usableBits := parameters.modulusBitSize - 1;
      assert usableBits == UsableBits(parameters.modulusBitSize) >= 1;
      var numElements := (numBits + usableBits - 1) / usableBits;
      assert numElements == ElementsFor(numBits, usableBits);
      var srcElements := SqueezeFieldElements(numElements);
      bits := CollectDigits(srcElements, 2, usableBits);
      bits := bits[..numBits];
    }
  }
}
