/** The Rescue hash adapters over circuit variables: a one-input hash and a two-to-one compression,
    each with a constant-folding path that runs the native hash on the input values and a circuit
    path that drives a fresh sponge gadget. */
module RescueCrh {
  import opened Field
  import opened Rescue
  import opened Duplex
  import opened DuplexProperties
  import opened SpongeGadget

  datatype Option<T> = None | Some(value: T)

  datatype SynthesisError = AssignmentMissing | Unsatisfiable | Other

  datatype Result<T, E> = Ok(value: T) | Err(error: E)

  /** How a variable is allocated; the parameter allocation ignores it. */
  datatype AllocationMode = Constant | Input | Witness

  /** A field variable: a constant, or a variable of a constraint system. Either way it carries
      its value. */
  datatype FpVar = ConstantVar(value: int) | Var(cs: ConstraintSystem, value: int)

  /** The parameters in their circuit form: the sponge configuration itself. */
  datatype CRHParametersVar = CRHParametersVar(parameters: Config)

  /** The values carried by `xs`. */
  function Values(xs: seq<FpVar>): (r: seq<int>)
    ensures |r| == |xs| && forall k :: 0 <= k < |xs| ==> r[k] == xs[k].value
  {
    seq(|xs|, k requires 0 <= k < |xs| => xs[k].value)
  }

  /** The constraint system of a slice of variables: the one of its last non-constant element,
      or none when every element is a constant. */
  function CsOf(xs: seq<FpVar>): (r: Option<ConstraintSystem>)
    ensures r.None? <==> forall k :: 0 <= k < |xs| ==> xs[k].ConstantVar?
    ensures r.Some? ==> exists k :: 0 <= k < |xs| && xs[k].Var? && xs[k].cs == r.value
  {
    if |xs| == 0 then None
    else if xs[|xs| - 1].Var? then Some(xs[|xs| - 1].cs)
    else
      var init := CsOf(xs[..|xs| - 1]);
      assert forall k :: 0 <= k < |xs| - 1 ==> xs[..|xs| - 1][k] == xs[k];
      init
  }

  /** The constraint system of one variable. */
  function CsOfVar(x: FpVar): (r: Option<ConstraintSystem>)
    ensures r.Some? <==> x.Var?
    ensures r.Some? ==> r.value == x.cs
  {
    if x.Var? then Some(x.cs) else None
  }

  /** The constraint system of a pair: the left one's, falling back to the right one's. */
  function CsOfPair(left: FpVar, right: FpVar): (r: Option<ConstraintSystem>)
    ensures r.None? <==> left.ConstantVar? && right.ConstantVar?
    ensures left.Var? ==> r == Some(left.cs)
    ensures left.ConstantVar? && right.Var? ==> r == Some(right.cs)
  {
    if CsOfVar(left).Some? then CsOfVar(left) else CsOfVar(right)
  }

  /** The constraint systems the variables of `xs` belong to. */
  function Handles(xs: seq<FpVar>): set<ConstraintSystem> {
    set k | 0 <= k < |xs| && xs[k].Var? :: xs[k].cs
  }

  /** The native one-input hash: a fresh sponge absorbs the input and squeezes one element. */
  function NativeEvaluate(c: ValidConfig, xs: seq<int>): (r: int)
    ensures 0 <= r < c.modulus
  {
    var squeezed := Squeeze(c, Absorb(c, Init(c), xs), 1);
    assert 0 <= squeezed.out[0] < c.modulus by {
      NativeOutputInState(c, Absorb(c, Init(c), xs));
    }
    squeezed.out[0]
  }

  /** The native two-to-one compression: a fresh sponge absorbs `left`, then `right`, squeezes
      `outputSize` elements and returns the first. */
  function NativeCompress(c: ValidConfig, left: int, right: int): (r: int)
    requires c.outputSize >= 1
    ensures r == NativeEvaluate(c, [left, right])
  {
    var d := Absorb(c, Absorb(c, Init(c), [left]), [right]);
    CompressIsEvaluate(c, left, right);
    Squeeze(c, d, c.outputSize).out[0]
  }

  /** The first squeezed element is a rate slot of a state the sponge held, so it is reduced. */
  lemma NativeOutputInState(c: ValidConfig, d: Sponge)
    requires SpongeValid(c, d)
    ensures Squeeze(c, d, 1).out[0] in Squeeze(c, d, 1).after.state
    ensures 0 <= Squeeze(c, d, 1).out[0] < c.modulus
  {
    var s := if d.mode.Absorbing? || d.mode.Index() == c.rate then Permutation(c, d.state) else d.state;
    var i := if d.mode.Absorbing? || d.mode.Index() == c.rate then 0 else d.mode.Index();
    assert Squeeze(c, d, 1) == SqueezeInternal(c, s, i, 1);
    SqueezeFits(c, s, i, 1);
    assert Squeeze(c, d, 1).out[0] == s[c.capacity + i];
  }

  /** Absorbing `left` and `right` one at a time and reading the first of `outputSize >= 1`
      squeezed elements gives the one-input hash of `[left, right]`. */
  lemma CompressIsEvaluate(c: ValidConfig, left: int, right: int)
    requires c.outputSize >= 1
    ensures Squeeze(c, Absorb(c, Absorb(c, Init(c), [left]), [right]), c.outputSize).out[0]
      == NativeEvaluate(c, [left, right])
  {
    AbsorbPair(c, Init(c), left, right);
    SqueezeHead(c, Absorb(c, Init(c), [left, right]), c.outputSize);
  }

  /** The one-input hash over the squeeze loop as written is the native hash: a sponge that has
      just absorbed squeezes from index 0, where the written loop and the corrected one agree. */
  lemma EvaluateAsWritten(c: ValidConfig, xs: seq<int>)
    ensures SqueezeAsWritten(c, Absorb(c, Init(c), xs), 1).out[0] == NativeEvaluate(c, xs)
  {
    SqueezeAsWrittenFromAbsorbing(c, Absorb(c, Init(c), xs), 1);
  }

  /** The compression over the squeeze loop as written is the native compression. */
  lemma CompressAsWritten(c: ValidConfig, left: int, right: int)
    requires c.outputSize >= 1
    ensures SqueezeAsWritten(c, Absorb(c, Absorb(c, Init(c), [left]), [right]), c.outputSize).out[0]
      == NativeCompress(c, left, right)
  {
    SqueezeAsWrittenFromAbsorbing(c, Absorb(c, Absorb(c, Init(c), [left]), [right]), c.outputSize);
  }

  /** The one-input hash gadget. With no constraint system it folds the constant input values
      through the native hash; otherwise a fresh sponge absorbs the input and squeezes one
      element. Either way the value is the native hash of the input values, and the POW
      constraints the sponge records hold whenever those already recorded do. */
  method Evaluate(parameters: CRHParametersVar, input: seq<FpVar>) returns (r: FpVar)
    requires parameters.parameters.WellFormed()
    modifies Handles(input)
    ensures r.value == NativeEvaluate(parameters.parameters, Values(input))
    ensures CsOf(input).None? ==> r.ConstantVar?
    ensures CsOf(input).Some? ==> r.Var? && r.cs == CsOf(input).value
    ensures (CsOf(input).Some? && parameters.parameters.InverseExponents() &&
             old(AllHold(parameters.parameters, CsOf(input).value.pows))) ==>
      AllHold(parameters.parameters, CsOf(input).value.pows)
    ensures CsOf(input).Some? ==> old(CsOf(input).value.pows) <= CsOf(input).value.pows
  {
    var c: ValidConfig := parameters.parameters;
    var cs := CsOf(input);
    if cs.None? {
      var constantInput: seq<int> := [];
      var i := 0;
      while i < |input|
        invariant 0 <= i <= |input| && constantInput == Values(input[..i])
      {
        constantInput := constantInput + [input[i].value];
        i := i + 1;
      }
      assert input[..i] == input;
      r := ConstantVar(NativeEvaluate(c, constantInput));
    } else {
      var handle := cs.value;
      assert handle in Handles(input);
      var sponge := new RescueSpongeVar(handle, c);
      sponge.Absorb(Values(input));
      var res := sponge.SqueezeFieldElements(1);
      r := Var(handle, res[0]);
    }
  }

  /** The two-to-one compression gadget. With no constraint system on either side it folds the
      values through the native one-input hash of `[left, right]`; otherwise a fresh sponge
      absorbs `left`, then `right`, squeezes `outputSize` elements and returns the first, which
      the source requires to exist. Both paths give the native hash of `[left, right]`. */
  method Compress(parameters: CRHParametersVar, left: FpVar, right: FpVar) returns (r: FpVar)
    requires parameters.parameters.WellFormed()
    requires CsOfPair(left, right).Some? ==> parameters.parameters.outputSize >= 1
    modifies Handles([left, right])
    ensures r.value == NativeEvaluate(parameters.parameters, [left.value, right.value])
    ensures parameters.parameters.outputSize >= 1 ==>
      r.value == NativeCompress(parameters.parameters, left.value, right.value)
    ensures CsOfPair(left, right).None? ==> r.ConstantVar?
    ensures CsOfPair(left, right).Some? ==> r.Var? && r.cs == CsOfPair(left, right).value
    ensures (CsOfPair(left, right).Some? && parameters.parameters.InverseExponents() &&
             old(AllHold(parameters.parameters, CsOfPair(left, right).value.pows))) ==>
      AllHold(parameters.parameters, CsOfPair(left, right).value.pows)
    ensures CsOfPair(left, right).Some? ==> old(CsOfPair(left, right).value.pows) <= CsOfPair(left, right).value.pows
  {
    var c: ValidConfig := parameters.parameters;
    var cs := CsOfPair(left, right);
    if cs.None? {
      r := ConstantVar(NativeEvaluate(c, [left.value, right.value]));
    } else {
      var handle := cs.value;
      assert left.Var? ==> [left, right][0] == left;
      assert right.Var? ==> [left, right][1] == right;
      assert handle in Handles([left, right]);
      var sponge := new RescueSpongeVar(handle, c);
      sponge.Absorb([left.value]);
      sponge.Absorb([right.value]);
      var res := sponge.SqueezeFieldElements(c.outputSize);
      CompressIsEvaluate(c, left.value, right.value);
      r := Var(handle, res[0]);
    }
  }

  /** The two-to-one hash gadget: compression of the same arguments. */
  method EvaluateTwoToOne(parameters: CRHParametersVar, left: FpVar, right: FpVar) returns (r: FpVar)
    requires parameters.parameters.WellFormed()
    requires CsOfPair(left, right).Some? ==> parameters.parameters.outputSize >= 1
    modifies Handles([left, right])
    ensures r.value == NativeEvaluate(parameters.parameters, [left.value, right.value])
    ensures CsOfPair(left, right).None? ==> r.ConstantVar?
    ensures CsOfPair(left, right).Some? ==> r.Var? && r.cs == CsOfPair(left, right).value
    ensures (CsOfPair(left, right).Some? && parameters.parameters.InverseExponents() &&
             old(AllHold(parameters.parameters, CsOfPair(left, right).value.pows))) ==>
      AllHold(parameters.parameters, CsOfPair(left, right).value.pows)
    ensures CsOfPair(left, right).Some? ==> old(CsOfPair(left, right).value.pows) <= CsOfPair(left, right).value.pows
  {
    r := Compress(parameters, left, right);
  }

  /** Allocating the parameters: the configuration the closure yields, unchanged and whatever
      the allocation mode, or the closure's error. */
  function NewVariable(f: Result<Config, SynthesisError>, mode: AllocationMode): (r: Result<CRHParametersVar, SynthesisError>)
    ensures r.Ok? <==> f.Ok?
    ensures r.Ok? ==> r.value.parameters == f.value
    ensures r.Err? ==> r.error == f.error
  {
    match f
    case Ok(param) => Ok(CRHParametersVar(param))
    case Err(e) => Err(e)
  }

  /** Allocating the parameters does not depend on the allocation mode. */
  lemma NewVariableIgnoresMode(f: Result<Config, SynthesisError>, m1: AllocationMode, m2: AllocationMode)
    ensures NewVariable(f, m1) == NewVariable(f, m2)
  {
  }
}
