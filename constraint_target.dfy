/** Where the S-box's POW constraints go, as the gadget's code decides it: the constraint system
    is taken from slot 0 of the state, and a constant slot carries none. The module tracks which
    slots are circuit variables and which are constants, and compares what the S-box then records
    with the POW log the sponge model keeps. */
module ConstraintTarget {
  import opened Field
  import opened Rescue
  import opened Duplex

  /** A fresh sponge holds the constant zero in every slot: no slot is a variable. */
  function InitVars(c: ValidConfig): (r: seq<bool>)
    ensures |r| == c.Width() && forall j :: 0 <= j < |r| ==> !r[j]
  {
    seq(c.Width(), _ => false)
  }

  /** Which slots are variables once `inputVars` are added from slot `offset` on: a slot that
      receives a variable becomes one, and adding a constant changes nothing. */
  function AddVarsAt(vars: seq<bool>, offset: nat, inputVars: seq<bool>): (r: seq<bool>)
    requires offset + |inputVars| <= |vars|
    ensures |r| == |vars|
    ensures forall j :: 0 <= j < offset ==> r[j] == vars[j]
    ensures forall k :: 0 <= k < |inputVars| && inputVars[k] ==> r[offset + k]
    ensures forall k :: 0 <= k < |inputVars| && !inputVars[k] ==> r[offset + k] == vars[offset + k]
    ensures forall j :: offset + |inputVars| <= j < |vars| ==> r[j] == vars[j]
  {
    seq(|vars|, j requires 0 <= j < |vars| =>
      if offset <= j < offset + |inputVars| then vars[j] || inputVars[j - offset] else vars[j])
  }

  /** The POW pair of every slot whose old value is a variable, in slot order: the pairs the
      S-box hands to a constraint system that exists. */
  function VarPairs(before: seq<int>, after: seq<int>, vars: seq<bool>, forward: bool): (r: seq<(int, int)>)
    requires |before| == |after| == |vars|
    ensures |r| <= |before|
    ensures forall q :: q in r ==> q in PowPairs(before, after, forward)
    ensures forall k :: 0 <= k < |vars| && vars[k] ==> PowPairs(before, after, forward)[k] in r
    ensures (forall k :: 0 <= k < |vars| ==> !vars[k]) ==> r == []
    ensures forall q :: q in r ==>
      exists k :: 0 <= k < |vars| && vars[k] && PowPairs(before, after, forward)[k] == q
    decreases |before|
  {
    if |before| == 0 then []
    else
      var head := if forward then (before[0], after[0]) else (after[0], before[0]);
      var rest := VarPairs(before[1..], after[1..], vars[1..], forward);
      var r := (if vars[0] then [head] else []) + rest;
      VarPairsShift(before, after, vars, forward, rest, r);
      assert forall k :: 0 <= k < |vars| - 1 ==> vars[1..][k] == vars[k + 1];
      r
  }

  /** Exactly the pairs of the variable slots are in `r`. */
  predicate PairsOfVariables(before: seq<int>, after: seq<int>, vars: seq<bool>, forward: bool, r: seq<(int, int)>)
    requires |before| == |after| == |vars|
  {
    && (forall k :: 0 <= k < |vars| && vars[k] ==> PowPairs(before, after, forward)[k] in r)
    && (forall q :: q in r ==>
          exists k :: 0 <= k < |vars| && vars[k] && PowPairs(before, after, forward)[k] == q)
  }

  /** Putting slot 0's pair, when it is a variable, in front of the pairs of the other slots'
      variables gives the pairs of all the variable slots. */
  lemma VarPairsShift(before: seq<int>, after: seq<int>, vars: seq<bool>, forward: bool,
                      rest: seq<(int, int)>, r: seq<(int, int)>)
    requires |before| == |after| == |vars| > 0
    requires PairsOfVariables(before[1..], after[1..], vars[1..], forward, rest)
    requires r == (if vars[0] then [if forward then (before[0], after[0]) else (after[0], before[0])] else []) + rest
    ensures PairsOfVariables(before, after, vars, forward, r)
    ensures forall q :: q in r ==> q in PowPairs(before, after, forward)
  {
    var all := PowPairs(before, after, forward);
    var tail := PowPairs(before[1..], after[1..], forward);
    assert forall k :: 1 <= k < |vars| ==> all[k] == tail[k - 1] && vars[k] == vars[1..][k - 1];
    forall k | 0 <= k < |vars| && vars[k]
      ensures all[k] in r
    {
      if k > 0 {
        assert tail[k - 1] in rest;
      }
    }
    forall q | q in r
      ensures exists k :: 0 <= k < |vars| && vars[k] && all[k] == q
    {
      if q !in rest {
        assert vars[0] && all[0] == q;
      } else {
        var i :| 0 <= i < |vars| - 1 && vars[1..][i] && tail[i] == q;
        assert vars[i + 1] && all[i + 1] == q;
      }
    }
  }

  /** The POW pairs the S-box as written records: its constraint system is slot 0's, so it
      records nothing when slot 0 is a constant, and otherwise the pairs of the variable slots. */
  function SBoxEnforcedAsWritten(before: seq<int>, after: seq<int>, vars: seq<bool>, forward: bool): (r: seq<(int, int)>)
    requires |before| == |after| == |vars|
    ensures forall q :: q in r ==> q in PowPairs(before, after, forward)
    ensures |vars| > 0 && !vars[0] ==> r == []
    ensures |vars| > 0 && vars[0] ==>
      forall k :: 0 <= k < |vars| && vars[k] ==> PowPairs(before, after, forward)[k] in r
    ensures forall q :: q in r ==>
      exists k :: 0 <= k < |vars| && vars[k] && PowPairs(before, after, forward)[k] == q
  {
    if |vars| > 0 && vars[0] then VarPairs(before, after, vars, forward) else []
  }

  /** When every slot is a variable, the S-box as written records the pair of every slot: exactly
      the pairs the model's S-box logs. */
  lemma {:induction false} AllVariablesRecordEverySlot(before: seq<int>, after: seq<int>, vars: seq<bool>, forward: bool)
    requires |before| == |after| == |vars|
    requires forall j :: 0 <= j < |vars| ==> vars[j]
    ensures SBoxEnforcedAsWritten(before, after, vars, forward) == PowPairs(before, after, forward)
  {
    if |before| > 0 {
      AllVariablesPairs(before, after, vars, forward);
    }
  }

  lemma {:induction false} AllVariablesPairs(before: seq<int>, after: seq<int>, vars: seq<bool>, forward: bool)
    requires |before| == |after| == |vars|
    requires forall j :: 0 <= j < |vars| ==> vars[j]
    ensures VarPairs(before, after, vars, forward) == PowPairs(before, after, forward)
    decreases |before|
  {
    if |before| > 0 {
      assert forall j :: 0 <= j < |vars| - 1 ==> vars[1..][j] == vars[j + 1];
      AllVariablesPairs(before[1..], after[1..], vars[1..], forward);
      var head := if forward then (before[0], after[0]) else (after[0], before[0]);
      var rest := VarPairs(before[1..], after[1..], vars[1..], forward);
      assert VarPairs(before, after, vars, forward) == [head] + rest;
      PowPairsCons(before, after, forward);
    }
  }

  /** The pairs of a nonempty state are slot 0's pair followed by the pairs of the other slots. */
  lemma PowPairsCons(before: seq<int>, after: seq<int>, forward: bool)
    requires |before| == |after| > 0
    ensures PowPairs(before, after, forward) ==
      [if forward then (before[0], after[0]) else (after[0], before[0])] + PowPairs(before[1..], after[1..], forward)
  {
    var tail := PowPairs(before[1..], after[1..], forward);
    assert forall k :: 1 <= k < |before| ==> PowPairs(before, after, forward)[k] == tail[k - 1];
  }

  /** The first S-box layer of a fresh sponge. Absorb inputs into its first window, any of them
      variables, and permute. Capacity slot 0 is still the constant zero plus a round constant,
      so the S-box as written records no POW constraint at all, while the model's permutation
      log starts with one pair per slot for that layer. */
  lemma FirstSBoxRecordsNothing(c: ValidConfig, xs: seq<int>, inputVars: seq<bool>)
    requires c.capacity >= 1 && |c.arc| >= 2
    requires |xs| == |inputVars| && |xs| <= c.rate
    ensures var d := AbsorbInternal(c, Init(c).state, 0, xs);
      var s := Ark(d.state, c.arc[0], c.modulus);
      var after := SBox(s, RoundExponent(c, 0), c.modulus);
      var vars := AddVarsAt(InitVars(c), c.capacity, inputVars);
      && |vars| == c.Width() && !vars[0]
      && SBoxEnforcedAsWritten(s, after, vars, RoundForward(c, 0)) == []
      && PermutationLog(c, d.state)[..c.Width()] == PowPairs(s, after, RoundForward(c, 0))
  {
    var d := AbsorbInternal(c, Init(c).state, 0, xs);
    var s := Ark(d.state, c.arc[0], c.modulus);
    RoundsStep(c, s, 0);
  }
}
