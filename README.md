# Rescue sponge gadget and Rescue hash adapters, in Dafny

This project models the in-circuit Rescue duplex sponge of `crypto-primitives`
(`RescueSpongeVar`, in `sponge/rescue/gr1cs_constraints.rs`) and the Rescue hash
gadgets built on it (`CRHGadget`, `TwoToOneCRHGadget` and `CRHParametersVar`, in
`crh/rescue/constraints.rs`).

## What is modelled

- **Field.** A prime-field element is its canonical integer in `[0, p)`. `Pow` is
  exponentiation modulo `p`.
- **Circuit variables.** Each one is modelled by the value it carries. So the values
  the gadget computes are the native sponge's values.
- **Constraint system.** Modelled as a class holding the POW constraints the S-box
  records, as pairs `(a, b)` standing for `a^alpha = b`.
- **Inverse exponents.** The configuration's promise that `alpha * alpha_inv = 1`
  modulo `p - 1` is the predicate `Config.InverseExponents`. It is an assumption of
  the satisfaction results, and it is never proved.

The modules:

- `Field` (`field.dfy`): reduced sequences, `Pow`, powers and little-endian digits,
  and uniqueness of integer division.
- `Rescue` (`rescue.dfy`):
  - `RescueConfig` together with the modulus and its bit size;
  - the round-constant step, the S-box and the MDS step;
  - one round, and the permutation as functions on the state;
  - the POW pairs a permutation records;
  - the proof that every recorded pair holds.
- `Duplex` (`duplex.dfy`): the duplex automaton on values. This covers:
  - the state vector, and the mode `Absorbing(i)` / `Squeezing(i)`;
  - `absorb_internal`, `absorb`, `squeeze_internal` and `squeeze_field_elements`;
  - how many permutations each performs;
  - the squeeze loop as written, next to the corrected loop (see Findings).
- `DuplexProperties` (`duplex_properties.dfy`): what these operations promise:
  - the permutation counts;
  - where absorbed inputs land;
  - two absorbs are one absorb of the concatenation;
  - two squeezes are one longer squeeze;
  - the first element of a longer squeeze is a one-element squeeze;
  - the behaviour of the squeeze loop as written, and where it agrees with the corrected loop.
- `Extraction` (`extraction.dfy`): byte and bit extraction:
  - the number of elements needed, `ceil(n / usable)`;
  - the low `usable` digits of each element;
  - truncation to the requested count.
- `SpongeGadget` (`sponge_var.dfy`):
  - the class `ConstraintSystem`;
  - the in-place helpers `apply_s_box`, `apply_ark` and `apply_mds`, which work on an
    `array`;
  - the class `RescueSpongeVar`, with its state, mode and constraint system as fields
    and its operations as methods. Each method is proved equal to the value function
    of its old state: `permute` to `Rescue.Permutation`, the others to their `Duplex`
    function. It preserves the state invariant, counts its
    permutations, keeps every POW constraint recorded earlier, and keeps them all satisfied. The constructor
    starts the count at 0, `permute` adds one and `AddToRate` keeps it; the other methods state it through
    `AbsorbPermutes`, `ChunkPermutes` or `SqueezePermutes`.
- `ConstraintTarget` (`constraint_target.dfy`): which slots are variables and which are
  constants, and the POW constraints the S-box as written records, since it takes its
  constraint system from slot 0. This is compared with the model's POW log (see Findings).
- `RescueCrh` (`crh.dfy`):
  - field variables, `Constant` or `Var`, each carrying its value and, for `Var`, its
    constraint system;
  - the native one-input hash and the two-to-one hash;
  - the gadgets `evaluate`, `compress` and the two-to-one `evaluate`, each with its
    constant-folding path and its circuit path, proved to yield the native hash of the
    input values. The adapters squeeze from a sponge that has just absorbed, so the same
    holds over the squeeze loop as written;
  - parameter allocation.

## Model

| member | source | states |
|---|---|---|
| SpongeGadget.RescueSpongeVar.constructor | crypto-primitives/src/sponge/rescue/gr1cs_constraints.rs:205-218 | the new sponge keeps the given constraint system and parameters, its state is `rate + capacity` zero slots, its mode is `Absorbing(0)`, and it satisfies the state invariant |
| Duplex.Init | crypto-primitives/src/sponge/rescue/gr1cs_constraints.rs:205-218 | the fresh sponge has exactly `rate + capacity` slots, all zero, and mode `Absorbing(0)` |
| SpongeGadget.ConstraintSystem.EnforcePow | crypto-primitives/src/sponge/rescue/gr1cs_constraints.rs:58 | enforcing a POW constraint appends exactly that pair and keeps the earlier ones |
| SpongeGadget.ApplySBox | crypto-primitives/src/sponge/rescue/gr1cs_constraints.rs:43-90 | every slot becomes `x^exponent` in both branches. One POW pair per slot is appended: `(old, new)` in the forward branch and `(new, old)` in the inverse branch |
| ConstraintTarget.InitVars | crypto-primitives/src/sponge/rescue/gr1cs_constraints.rs:206-207 | a fresh sponge holds the constant zero in every slot, so no slot is a variable |
| ConstraintTarget.AddVarsAt | crypto-primitives/src/sponge/rescue/gr1cs_constraints.rs:140-142 | a slot becomes a variable exactly when a variable input lands on it. A slot that receives a constant, and every slot outside the window, keeps its flag |
| ConstraintTarget.VarPairs | crypto-primitives/src/sponge/rescue/gr1cs_constraints.rs:56-59 | the pairs handed to an existing constraint system are exactly the pairs of the variable slots: each variable slot's pair is among them, and each of them is some variable slot's pair. There are at most as many as slots, and none when no slot is a variable |
| ConstraintTarget.SBoxEnforcedAsWritten | crypto-primitives/src/sponge/rescue/gr1cs_constraints.rs:50-86 | the S-box as written records nothing when slot 0 is a constant. When slot 0 is a variable it records exactly the pairs of the variable slots: every variable slot's pair, and no constant slot's pair unless it equals a variable slot's. It never records a pair outside the model's S-box log |
| ConstraintTarget.AllVariablesRecordEverySlot | crypto-primitives/src/sponge/rescue/gr1cs_constraints.rs:50-86 | when every slot, slot 0 among them, is a variable, the S-box as written records exactly the model's pairs, one per slot |
| ConstraintTarget.FirstSBoxRecordsNothing | crypto-primitives/src/sponge/rescue/gr1cs_constraints.rs:50-86 | in the first permutation of a fresh sponge with `capacity >= 1` that has absorbed into its first window, slot 0 is a constant. The first S-box as written then records no POW constraint, while the model logs one pair per slot |
| Rescue.SBox | crypto-primitives/src/sponge/rescue/gr1cs_constraints.rs:43-90 | the S-box keeps the state length and yields reduced field elements |
| Rescue.SBoxPairsHold | crypto-primitives/src/sponge/rescue/gr1cs_constraints.rs:52-86 | every pair a round's S-box records satisfies `a^alpha = b` in both branches, when raising to `alpha_inv` is undone by raising to `alpha` |
| SpongeGadget.ApplyArk | crypto-primitives/src/sponge/rescue/gr1cs_constraints.rs:92-97 | slot `i` becomes `old[i] + round_key[i]` and nothing else changes |
| Rescue.Ark | crypto-primitives/src/sponge/rescue/gr1cs_constraints.rs:92-97 | round-constant addition keeps the length and yields reduced elements |
| SpongeGadget.MdsRow | crypto-primitives/src/sponge/rescue/gr1cs_constraints.rs:102-108 | the inner loop computes the full dot product of MDS row `i` with the state |
| SpongeGadget.ApplyMds | crypto-primitives/src/sponge/rescue/gr1cs_constraints.rs:99-112 | the state is replaced by `new[i] = sum_j mds[i][j] * state[j]` and keeps its length |
| Rescue.Mds | crypto-primitives/src/sponge/rescue/gr1cs_constraints.rs:99-112 | the matrix-vector product keeps the length and yields reduced elements |
| Rescue.DotPrefix | crypto-primitives/src/sponge/rescue/gr1cs_constraints.rs:103-107 | each running sum of the inner MDS loop is a reduced field element |
| SpongeGadget.ApplyRound | crypto-primitives/src/sponge/rescue/gr1cs_constraints.rs:118-126 | one round applies the S-box with `alpha_inv` in even rounds and `alpha` in odd rounds, then the MDS step, then `arc[round + 1]`. It appends that S-box's POW pairs |
| Rescue.RoundForward | crypto-primitives/src/sponge/rescue/gr1cs_constraints.rs:52 | the forward branch is taken exactly when the exponent digits the round passes equal `[alpha]`: `[alpha]` itself in odd rounds, the 64-bit digits of `alpha_inv` in even rounds (lines 116-122), for any `alpha` that fits in 64 bits |
| Rescue.U64Digits | crypto-primitives/src/sponge/rescue/gr1cs_constraints.rs:116 | the 64-bit digits of `alpha_inv` are empty exactly for zero |
| Rescue.Round | crypto-primitives/src/sponge/rescue/gr1cs_constraints.rs:118-126 | one round keeps the length and yields reduced elements |
| Rescue.RoundsFrom | crypto-primitives/src/sponge/rescue/gr1cs_constraints.rs:118-126 | the remaining rounds keep the length and keep a reduced state reduced |
| SpongeGadget.PermuteArray | crypto-primitives/src/sponge/rescue/gr1cs_constraints.rs:114-129 | on the copied state, the loop computes the Rescue permutation: `arc[0]` first, then one round per further constant vector. It appends exactly the permutation's POW pairs |
| SpongeGadget.RescueSpongeVar.Permute | crypto-primitives/src/sponge/rescue/gr1cs_constraints.rs:114-129 | the state becomes the permutation of the old state and the mode is unchanged. The POW log grows by the permutation's pairs, the permutation count grows by one, and a satisfied constraint system stays satisfied |
| Rescue.Permutation | crypto-primitives/src/sponge/rescue/gr1cs_constraints.rs:114-129 | the permutation keeps the state length and yields reduced field elements |
| Rescue.RoundsLogHolds | crypto-primitives/src/sponge/rescue/gr1cs_constraints.rs:118-126 | every POW pair the remaining rounds record holds |
| Rescue.PermutationLogHolds | crypto-primitives/src/sponge/rescue/gr1cs_constraints.rs:114-129 | every POW pair one permutation records holds: the S-box constraints are satisfied by the values the gadget assigns |
| Rescue.AllHoldAppend | crypto-primitives/src/sponge/rescue/gr1cs_constraints.rs:58 | appending satisfied constraints to satisfied constraints keeps them all satisfied |
| Field.Pow | crypto-primitives/src/sponge/rescue/gr1cs_constraints.rs:55 | a power is a reduced field element |
| Duplex.AddAt | crypto-primitives/src/sponge/rescue/gr1cs_constraints.rs:140-142 | adding inputs at an offset keeps the length and keeps a reduced state reduced |
| SpongeGadget.RescueSpongeVar.AddToRate | crypto-primitives/src/sponge/rescue/gr1cs_constraints.rs:151-157 | input `i` is added to slot `capacity + start + i`, every other slot is unchanged, and the mode is unchanged |
| SpongeGadget.RescueSpongeVar.AbsorbInternal | crypto-primitives/src/sponge/rescue/gr1cs_constraints.rs:131-163 | the new state and mode are the absorb loop's result. It permutes exactly once per full window crossed, the invariant holds. Every earlier POW constraint is kept, and a satisfied constraint system stays satisfied |
| Duplex.AbsorbInternal | crypto-primitives/src/sponge/rescue/gr1cs_constraints.rs:131-163 | the absorb loop keeps the state length, keeps it reduced and ends in `Absorbing(i)` with `i <= rate` |
| DuplexProperties.AbsorbWithinWindow | crypto-primitives/src/sponge/rescue/gr1cs_constraints.rs:139-145 | when the inputs fit, input `k` is added to slot `capacity + rate_start_index + k`. Every other slot, the capacity slots among them, is unchanged, and the mode becomes `Absorbing(start + len)` |
| DuplexProperties.ChunkPermutesCount | crypto-primitives/src/sponge/rescue/gr1cs_constraints.rs:137-162 | a loop over `n >= 1` items from index `start` permutes exactly `floor((start + n - 1) / rate)` times, once per full window crossed |
| DuplexProperties.AddAtConcat | crypto-primitives/src/sponge/rescue/gr1cs_constraints.rs:140-142 | adding `xs` and then `ys` just after it is adding `xs + ys` |
| DuplexProperties.AbsorbInternalConcat | crypto-primitives/src/sponge/rescue/gr1cs_constraints.rs:131-163 | absorbing `xs` and then `ys` from where the first loop stopped equals absorbing `xs + ys` in one loop |
| SpongeGadget.RescueSpongeVar.Absorb | crypto-primitives/src/sponge/rescue/gr1cs_constraints.rs:224-248 | the new state and mode are `absorb`'s result on the old ones. Empty input changes nothing, the constraint system included. The permutation count is as stated, every earlier POW constraint is kept, and a satisfied constraint system stays satisfied |
| Duplex.Absorb | crypto-primitives/src/sponge/rescue/gr1cs_constraints.rs:224-248 | empty input leaves state and mode unchanged; otherwise the sponge ends absorbing, with the state invariant kept |
| DuplexProperties.AbsorbPermutesCount | crypto-primitives/src/sponge/rescue/gr1cs_constraints.rs:230-245 | absorbing `n >= 1` elements costs one extra permutation exactly when the sponge was squeezing or its window was full, plus one per full window crossed |
| DuplexProperties.AbsorbAtRate | crypto-primitives/src/sponge/rescue/gr1cs_constraints.rs:231-237 | from a full window, absorbing is permuting and then absorbing from index 0 |
| DuplexProperties.AbsorbConcat | crypto-primitives/src/sponge/rescue/gr1cs_constraints.rs:224-248 | two absorbs in a row equal one absorb of the concatenated input |
| DuplexProperties.AbsorbPair | crypto-primitives/src/crh/rescue/constraints.rs:94-96 | absorbing `left` and then `right` equals absorbing `[left, right]` |
| SpongeGadget.RescueSpongeVar.SqueezeInternal | crypto-primitives/src/sponge/rescue/gr1cs_constraints.rs:166-199 | returns exactly the corrected squeeze loop's output and leaves its state and mode (see Findings). It permutes once per full window crossed. Every earlier POW constraint is kept, and a satisfied constraint system stays satisfied |
| Duplex.SqueezeInternal | crypto-primitives/src/sponge/rescue/gr1cs_constraints.rs:166-199 | the corrected loop yields exactly `n` elements, keeps the state length and reducedness, and ends in `Squeezing(i)` with `i <= rate` |
| DuplexProperties.SqueezeWithinWindow | crypto-primitives/src/sponge/rescue/gr1cs_constraints.rs:174-182 | when the request fits, output `k` is slot `capacity + start + k`, exactly `n` elements are returned, the state is untouched and the mode becomes `Squeezing(start + n)` |
| DuplexProperties.SqueezeInternalConcat | crypto-primitives/src/sponge/rescue/gr1cs_constraints.rs:166-199 | with the correction, squeezing `a` and then `b >= 1` elements from where the first squeeze stopped yields and leaves the same as squeezing `a + b` at once |
| Duplex.SqueezeInternalAsWritten | crypto-primitives/src/sponge/rescue/gr1cs_constraints.rs:166-199 | the loop as written, which skips the permutation when the remaining length equals `rate`, yields exactly `n` elements and ends in `Squeezing(i)` with `i <= rate` |
| DuplexProperties.AsWrittenRereadsWindow | crypto-primitives/src/sponge/rescue/gr1cs_constraints.rs:184-197 | as written, squeezing exactly `rate` elements from index `0 < k < rate` reads the rest of the window and then the window's first `k` slots again, without permuting |
| Duplex.SqueezeAsWritten | crypto-primitives/src/sponge/rescue/gr1cs_constraints.rs:280-304 | `squeeze_field_elements` over the loop as written yields exactly `n` elements and ends squeezing |
| DuplexProperties.AsWrittenRepeatsOutput | crypto-primitives/src/sponge/rescue/gr1cs_constraints.rs:191-194 | as written, after an absorb, squeezing one element and then `rate >= 2` elements returns the first element again as the last |
| DuplexProperties.AsWrittenAgrees | crypto-primitives/src/sponge/rescue/gr1cs_constraints.rs:166-199 | the loop as written and the corrected loop yield and leave the same whenever squeezing starts at index 0 or asks for a number of elements other than `rate` |
| DuplexProperties.SqueezeAsWrittenFromAbsorbing | crypto-primitives/src/sponge/rescue/gr1cs_constraints.rs:280-304 | from an absorbing sponge, `squeeze_field_elements` as written yields and leaves exactly what the corrected squeeze does |
| SpongeGadget.RescueSpongeVar.SqueezeFieldElements | crypto-primitives/src/sponge/rescue/gr1cs_constraints.rs:280-304 | the output and the new state and mode are `squeeze_field_elements`' result on the old ones. The permutation count is as stated. Every earlier POW constraint is kept, and a satisfied constraint system stays satisfied |
| Duplex.Squeeze | crypto-primitives/src/sponge/rescue/gr1cs_constraints.rs:280-304 | returns exactly `n` elements and leaves a valid sponge in squeezing mode |
| DuplexProperties.SqueezePermutesCount | crypto-primitives/src/sponge/rescue/gr1cs_constraints.rs:286-301 | squeezing `n >= 1` elements costs one extra permutation exactly when the sponge was absorbing or its window was used up, plus one per full window crossed |
| DuplexProperties.SqueezeAtRate | crypto-primitives/src/sponge/rescue/gr1cs_constraints.rs:293-299 | from a used-up window, squeezing is permuting and then squeezing from index 0 |
| DuplexProperties.SqueezeConcat | crypto-primitives/src/sponge/rescue/gr1cs_constraints.rs:280-304 | two squeezes in a row yield, and leave, what one squeeze of the summed length does |
| DuplexProperties.SqueezeHead | crypto-primitives/src/crh/rescue/constraints.rs:97-98 | element 0 of a squeeze of `n >= 1` elements is the element a squeeze of one yields |
| SpongeGadget.RescueSpongeVar.SqueezeBytes | crypto-primitives/src/sponge/rescue/gr1cs_constraints.rs:250-263 | returns the first `num_bytes` of the low `usable_bytes` little-endian bytes of `ceil(num_bytes / usable_bytes)` squeezed elements, where `usable_bytes = (MODULUS_BIT_SIZE - 1) / 8`. The sponge is left as that squeeze leaves it, the permutation count grows as that squeeze's does, and every earlier POW constraint is kept |
| SpongeGadget.RescueSpongeVar.SqueezeBits | crypto-primitives/src/sponge/rescue/gr1cs_constraints.rs:265-278 | the same for bits, with `usable_bits = MODULUS_BIT_SIZE - 1`, including the permutation count and the kept POW constraints |
| SpongeGadget.CollectDigits | crypto-primitives/src/sponge/rescue/gr1cs_constraints.rs:257-259 | the extension loop builds the low `u` digits of every element, in order |
| Field.Digits | crypto-primitives/src/sponge/rescue/gr1cs_constraints.rs:258 | the low `k` digits of an element are exactly `k` digits, each below the base |
| Extraction.UsableBytes | crypto-primitives/src/sponge/rescue/gr1cs_constraints.rs:251 | `usable_bytes` is the number of whole bytes below the top bit: `8 * usable_bytes <= MODULUS_BIT_SIZE - 1 < 8 * (usable_bytes + 1)` |
| Extraction.UsableBits | crypto-primitives/src/sponge/rescue/gr1cs_constraints.rs:266 | `usable_bits` is below `MODULUS_BIT_SIZE` and covers at least the bits of the usable bytes |
| Extraction.ElementsFor | crypto-primitives/src/sponge/rescue/gr1cs_constraints.rs:253 | `(n + u - 1) / u` is the least `m` with `m * u >= n` |
| Extraction.LowDigits | crypto-primitives/src/sponge/rescue/gr1cs_constraints.rs:256-259 | the buffer holds `u` units per element, each below the base |
| Extraction.Extract | crypto-primitives/src/sponge/rescue/gr1cs_constraints.rs:261 | exactly `n` units are returned, each below the base |
| Extraction.LowDigitsAt | crypto-primitives/src/sponge/rescue/gr1cs_constraints.rs:257-259 | unit `k` of the buffer is digit `k % u` of element `k / u` |
| Extraction.ExtractAt | crypto-primitives/src/sponge/rescue/gr1cs_constraints.rs:256-262 | extracted unit `k` is digit `k % u` of squeezed element `k / u` |
| RescueCrh.Values | crypto-primitives/src/crh/rescue/constraints.rs:44-47 | the constant input holds each variable's value, in order |
| RescueCrh.CsOf | crypto-primitives/src/crh/rescue/constraints.rs:41 | a slice has no constraint system exactly when all its elements are constants. Otherwise its constraint system is one of its variables' |
| RescueCrh.CsOfPair | crypto-primitives/src/crh/rescue/constraints.rs:83 | the pair's constraint system is the left one's, falling back to the right one's, and is none exactly when both are constants |
| RescueCrh.NativeEvaluate | crypto-primitives/src/crh/rescue/constraints.rs:49 | the native one-input hash is a reduced field element |
| RescueCrh.NativeCompress | crypto-primitives/src/crh/rescue/constraints.rs:176-178 | the native compression of `left` and `right` equals the native one-input hash of `[left, right]` |
| RescueCrh.CompressIsEvaluate | crypto-primitives/src/crh/rescue/constraints.rs:94-98 | absorbing `left` then `right` separately and taking element 0 of `output_size >= 1` squeezed elements gives the one-input hash of `[left, right]` |
| RescueCrh.EvaluateAsWritten | crypto-primitives/src/crh/rescue/constraints.rs:52-56 | a fresh sponge that absorbs the input and squeezes one element with the loop as written returns the native hash |
| RescueCrh.CompressAsWritten | crypto-primitives/src/crh/rescue/constraints.rs:94-98 | a fresh sponge that absorbs `left`, then `right`, and squeezes `output_size >= 1` elements with the loop as written returns the native compression as element 0 |
| RescueCrh.Evaluate | crypto-primitives/src/crh/rescue/constraints.rs:37-58 | both paths return the native hash of the input values. Without a constraint system the result is a constant; with one it is a variable of that system, which keeps every earlier constraint and stays satisfied if it was |
| RescueCrh.Compress | crypto-primitives/src/crh/rescue/constraints.rs:78-100 | both paths return the native hash of `[left, right]`, which is the native compression. The result is a constant without a constraint system and a variable of the left-or-right system otherwise, which keeps every earlier constraint and stays satisfied if it was |
| RescueCrh.EvaluateTwoToOne | crypto-primitives/src/crh/rescue/constraints.rs:70-76 | the two-to-one hash gadget has `compress`'s result on the same arguments: the native hash of `[left, right]`, with the same constraint-system guarantees |
| RescueCrh.NewVariable | crypto-primitives/src/crh/rescue/constraints.rs:103-115 | allocation succeeds exactly when the closure does. It stores the configuration unchanged, or passes on the closure's error |
| RescueCrh.NewVariableIgnoresMode | crypto-primitives/src/crh/rescue/constraints.rs:104-108 | the allocation mode does not affect the result |

## Left out

- SpongeGadget.ApplySBox: every slot records a POW pair. The source records one only when the old and the new slot are both allocated variables; otherwise it computes `pow_by_constant`, whose value is the same power. The pairs the model records are therefore a superset of the source's, so satisfying them implies satisfying the source's.
- SpongeGadget.ApplySBox: the source enforces the constraint in `state[0]`'s constraint system, and `state[0]` is capacity slot 0. In a fresh sponge that slot is a constant until the first S-box layer of its first permutation, and a constant has no constraint system, so that layer records nothing (see Findings). The model records every pair in the sponge's own system.
- The POW log over-approximates what the source enforces: it holds a pair for every slot of every S-box layer. The satisfaction results say only that the values the gadget assigns meet these pairs. No property here speaks to soundness, that is, to whether the source's constraints determine the output.
- SpongeGadget.ApplySBox: the constant-folding `pow_by_constant` result in the inverse branch is overwritten by the new witness, and the model keeps only the value, which is the same.
- Witness allocation (`FpVar::new_witness`, its `unwrap`), linear combinations and `ConstraintSystemRef` sharing are not modelled. The constraint system is only the list of POW pairs.
- Field arithmetic is integers modulo `p`. The `to_u64_digits` encoding of `alpha_inv` appears only in which S-box branch a round takes: the forward branch exactly when `alpha_inv == alpha != 0`. `alpha * alpha_inv = 1` is not proved; the satisfaction results assume it as `InverseExponents`.
- `to_sponge_field_elements` is the identity on field variables. Absorbing other types (bytes, for instance) is not modelled.
- SpongeGadget.RescueSpongeVar.SqueezeInternal: the source fills a caller-provided buffer of `num_elements` zeros in place. The model returns the sequence of the same elements.
- `to_bytes_le` and `to_bits_le` are modelled only as the low digits of the canonical integer. Their circuit decomposition and its constraints are left out.
- `squeeze_emulated_field_elements_with_sizes`, `squeeze_native_field_elements` and the native `RescueSponge` are not part of this model. Their bodies are not in the modelled files. The native sponge's behaviour is taken to be the `Duplex` functions.
- The native `CRH::evaluate` and `TwoToOneCRH::compress` (`crh/rescue/mod.rs`) are not part of this model. They are defined here as a fresh sponge that absorbs the input and squeezes one element, or absorbs `left` then `right` and squeezes `output_size` elements and returns the first.
- Panics are preconditions:
  - a configuration whose MDS matrix or round constants do not match the state length, or with no round constants, is excluded by `WellFormed`;
  - `rate = 0`, for which the absorb and squeeze loops never end, is excluded the same way;
  - `squeeze_bytes` requires `MODULUS_BIT_SIZE >= 9`, since `usable_bytes = 0` divides by zero;
  - `compress`'s circuit path requires `output_size >= 1`, since `res[0]` panics otherwise.
- `usize` overflow in `capacity + i + rate_start_index` and in `num_bytes + usable_bytes - 1` is not modelled: indices are unbounded integers.
- `SynthesisError` results of the sponge operations, of `value()` and of `to_bytes_le`, as well as `CRH::evaluate(...).unwrap()`, are not modelled. Every variable carries its value, so these calls succeed in the model.
- RescueCrh.Evaluate: the circuit path's result is always a `Var` of the input's constraint system. The source returns `res[0]`, which is a variable in that system except in degenerate configurations where an output slot never mixes with an input variable.
- RescueCrh.Compress and RescueCrh.EvaluateTwoToOne: the circuit path's result is always a `Var` of the left-or-right constraint system. The source's `res[0]` can be a constant. For example, take a configuration with a single round-constant vector, rate 2 and capacity 1, with `left` a constant and `right` a variable. Then the permutation is only the round-constant step, and the slot `res[0]` is read from holds only `left` and constants.
- RescueCrh.CsOf: a slice takes the constraint system of its last non-constant element. This follows the circuit library's rule for slices; it matters only when the variables belong to different systems.
- The `Namespace` argument of `new_variable` is ignored, as in the source.
- The sponge's design permutes at every window crossing while squeezing. The code skips that permutation in one case (line 192). The loop as written is modelled and exhibited; the sponge class uses the corrected loop (see Findings). The hash adapters squeeze only from a sponge that has just absorbed, where the two loops agree, so their results also hold for the loop as written (`RescueCrh.EvaluateAsWritten`, `RescueCrh.CompressAsWritten`).

## Findings

| source | as written | input that shows it | evidently intended | confidence | as-written member | corrected member |
|---|---|---|---|---|---|---|
| crypto-primitives/src/sponge/rescue/gr1cs_constraints.rs:191-194 | between chunks the squeeze loop permutes only when the number of outputs still wanted differs from `rate` | a configuration with `rate >= 2`: absorb any input, call `squeeze_field_elements(1)`, then `squeeze_field_elements(rate)`. The second call reads slots `1 .. rate` of the window, skips the permutation because exactly `rate` outputs remain, and reads slot 0 of the same window again, so its last element equals the first call's element | permute before reading from index 0 again, so that every chunk after the first comes from a fresh permutation, as in every other window crossing | not executed; high (the skipped case always re-reads an already squeezed window) | DuplexProperties.AsWrittenRepeatsOutput | DuplexProperties.SqueezeInternalConcat |
| crypto-primitives/src/sponge/rescue/gr1cs_constraints.rs:50-86 | the S-box takes its constraint system from `state[0]` (line 50), which is capacity slot 0. A constant has no constraint system, so when slot 0 is a constant, the POW constraints at lines 58 and 76 go nowhere and `let _` drops the error. In the inverse branch, line 84 then puts a new witness in every slot that no constraint ties to its old value | any configuration with `capacity >= 1` and at least one round: a fresh sponge in `evaluate` or `compress` absorbs variables into its rate slots and permutes. Slot 0 is the constant zero plus `arc[0][0]`, so the first S-box layer (`alpha_inv`, inverse branch) records no constraint | enforce every S-box slot's POW relation in the sponge's own constraint system, whatever slot 0 holds | not executed; medium (it depends on the circuit library returning no constraint system for a constant, and on `enforce_constraint` failing there) | ConstraintTarget.FirstSBoxRecordsNothing | Rescue.SBoxPairsHold |
