# Aggregated Groth16 verification and the Nova proving recorder, in Dafny

This project models two parts of bellperson.

**The aggregate verifier** (`src/groth16/aggregate/verify.rs`) checks many Groth16 proofs at once, through one aggregated proof. The model covers the steps of `verify_aggregate_proof` that derive the values its pairing checks are evaluated on, and every check that does not evaluate a pairing:

- the public-input length validation;
- the random challenge `r` and the sum `r_sum = 1 + r + … + r^(n-1)`;
- the public-input getter, which combines column `i` of the inputs with the powers of `r`;
- `verify_tipp_mipp`: it reverses the challenges, derives the KZG challenge point and runs the one non-pairing check (`final_c^final_r == zc`), which invalidates the pairing accumulator on failure;
- `gipa_verify_tipp_mipp`: it regenerates the sequential Fiat-Shamir challenge chain, then folds every round's left values raised to the challenge and right values raised to its inverse into the proof's base commitments (`GipaTUZ` with `default` and `merge`).

**The Nova proving recorder** (`src/nova/prover.rs`) is `ProvingAssignment`, an object that records variable assignments and constraint evaluations while a circuit is synthesised.

Files:

- `results.dfy`: `Option` and `Result`.
- `field.dfy`: the scalar field `Fr` of BLS12-381 as integers modulo its prime order. Inversion is by the extended Euclidean algorithm. The ring laws are proved from integer arithmetic.
- `algebra.dfy`: the abstract groups, as a record of an operation, an identity and a scalar action. The transcript oracle is a function from a sequence of typed operands to a field element.
- `fold_state.dfy`: `GipaTUZ` as a value (`Tuz`) and as a class (`GipaTuz`), and the fold closure. The laws proved here make the parallel fold-and-reduce order-independent.
- `gipa_verify.dfy`: `gipa_verify_tipp_mipp`.
- `aggregate_verify.dfy`: the pairing accumulator flag, `verify_tipp_mipp` and `verify_aggregate_proof`.
- `prover.dfy`: `ProvingAssignment`.

The concrete groups are type parameters:

- `T` for the target group `Fqk`, which is multiplicative;
- `G` for G1, which is additive;
- `H` for G2.

Each group comes with a `Monoid` record. The lemmas that need the group laws assume them through `Laws`: associativity, commutativity and identity. The scalar action is not otherwise constrained, because none of the proved properties need more.

Each GIPA round hashes the seed followed by twelve values, in this order:

- the four AB commitment components;
- the two `z_ab` values;
- the two `z_c` values;
- the four C commitment components.

The model follows the code (`RoundTranscript`).

## Model

| member | source | states |
|---|---|---|
| Field.Inverse | src/groth16/aggregate/verify.rs:330 | `inverse()` yields `y` only when `x * y == 1`, and never for zero |
| Field.InverseExists | src/groth16/aggregate/verify.rs:330 | over the prime modulus every non-zero element has an inverse, so an `inverse().unwrap()` panics only on zero |
| FoldState.CombineIdentity | src/groth16/aggregate/verify.rs:581-590 | `GipaTUZ::default` is a two-sided identity of `merge` |
| FoldState.Identity | src/groth16/aggregate/verify.rs:581-590 | `GipaTUZ::default` as a value: five target-group identities and the G1 zero; `CombineIdentity` proves it neutral for `merge` |
| FoldState.CombineAssoc | src/groth16/aggregate/verify.rs:597-604 | `merge` is associative |
| FoldState.CombineComm | src/groth16/aggregate/verify.rs:597-604 | `merge` is commutative |
| FoldState.Combine | src/groth16/aggregate/verify.rs:597-604 | what `merge` leaves behind, as a value: the component-wise product, and the sum for `zc`; `CombineAssoc` and `CombineComm` are its laws |
| FoldState.GipaTuz.Default | src/groth16/aggregate/verify.rs:581-590 | the default state has every target-group component at one and `zc` at zero |
| FoldState.GipaTuz.constructor | src/groth16/aggregate/verify.rs:349-356 | a `GipaTUZ` literal holds exactly the given six values |
| FoldState.GipaTuz.Merge | src/groth16/aggregate/verify.rs:597-604 | `merge` leaves in `self` the component-wise product (sum for `zc`) of the old state and `other` |
| FoldState.Absorb | src/groth16/aggregate/verify.rs:404-433 | the fold closure as a value: the operation's operand raised to its exponent and multiplied into its own component (scaled and added for `zc`); `AbsorbIsCombine` relates it to `merge` |
| FoldState.AbsorbIsCombine | src/groth16/aggregate/verify.rs:404-433 | applying the fold closure to one operation is merging in that operation's own contribution |
| FoldState.FoldOpsAppend | src/groth16/aggregate/verify.rs:404-433 | folding a concatenation is folding the second run onto the result of the first |
| FoldState.FoldOpsFrom | src/groth16/aggregate/verify.rs:404-439 | folding from the base values equals merging the base values with the fold from `default`, which is what `final_res.merge(&res)` does |
| FoldState.FoldOpsSplit | src/groth16/aggregate/verify.rs:404-437 | splitting the operations anywhere, folding each part from `default` and merging gives the fold of the whole; this is the fold-then-reduce |
| FoldState.FoldOpsPermutation | src/groth16/aggregate/verify.rs:372-437 | any rearrangement of the operations folds to the same state |
| GipaVerify.NumRounds | src/groth16/aggregate/verify.rs:304-307 | the zipped loop runs as many rounds as the shortest of the four per-round vectors |
| GipaVerify.RoundSeed | src/groth16/aggregate/verify.rs:299-314 | the seed of round `i`: zero in the first round, afterwards the challenge of the round before; `ChainShape` proves every round is hashed with it |
| GipaVerify.RoundTranscript | src/groth16/aggregate/verify.rs:314-329 | a round hashes thirteen operands, the seed first; the rest follow in the code's order |
| GipaVerify.ChallengeChain | src/groth16/aggregate/verify.rs:296-333 | a chain that does not panic has exactly one challenge and one inverse per round |
| GipaVerify.ChainShape | src/groth16/aggregate/verify.rs:313-333 | each `c_inv` is the oracle over the seed (zero in round 0, the previous challenge afterwards) and the round's twelve values in order; each challenge is the field inverse of its `c_inv` |
| GipaVerify.ChainAt | src/groth16/aggregate/verify.rs:313-333 | round `i` of the chain: its `c_inv` is the oracle output for that round and its challenge is the inverse of that output |
| GipaVerify.ChallengesInvert | src/groth16/aggregate/verify.rs:330-332 | `challenges[i] * challenges_inv[i] == 1` for every round |
| GipaVerify.ChainPrefix | src/groth16/aggregate/verify.rs:313-333 | the challenges of the first `j` rounds do not depend on later rounds |
| GipaVerify.ChainFailsOnZero | src/groth16/aggregate/verify.rs:315-330 | over the prime field the loop panics exactly when some round's oracle output is zero |
| GipaVerify.ChainNone | src/groth16/aggregate/verify.rs:330 | once a round panics, no later round count yields challenges |
| GipaVerify.GenerateChallenges | src/groth16/aggregate/verify.rs:296-333 | the challenge loop returns the chain for all zipped rounds, or a panic exactly where the chain has one |
| GipaVerify.RoundOps | src/groth16/aggregate/verify.rs:389-402 | a round yields twelve operations |
| GipaVerify.RoundOpsExponents | src/groth16/aggregate/verify.rs:388-402 | in each round the left value of each pair is scaled by `c` and the right one by `c^-1` |
| GipaVerify.AllOps | src/groth16/aggregate/verify.rs:372-403 | the `flat_map` output: the twelve operations of each round, round after round; `AllOpsFolded` and `GipaFoldAnyOrder` state what folding it gives |
| GipaVerify.RoundOpsFold | src/groth16/aggregate/verify.rs:385-401 | folding a round's twelve operations puts `left^c · right^(c^-1)` into each of the six components |
| GipaVerify.RoundOpsContribution | src/groth16/aggregate/verify.rs:377-433 | with the group laws, a round's operations fold to exactly that round's contribution |
| GipaVerify.AllOpsFolded | src/groth16/aggregate/verify.rs:372-437 | the operations of all rounds fold to the product of the per-round contributions |
| GipaVerify.ApplyOp | src/groth16/aggregate/verify.rs:404-433 | the in-place fold closure updates exactly the operation's component, by `op(acc, x^e)` |
| GipaVerify.BaseValues | src/groth16/aggregate/verify.rs:342-356 | the base `GipaTUZ` holds the proof's `com_ab`, `ip_ab`, `com_c` and `agg_c`; `FoldCommitments` merges the fold into it |
| GipaVerify.FoldCommitments | src/groth16/aggregate/verify.rs:342-439 | the returned state is the base values merged with the product of every round's `left^c · right^(c^-1)` |
| GipaVerify.GipaResult | src/groth16/aggregate/verify.rs:281-445 | the value `gipa_verify_tipp_mipp` returns: `None` where the challenge chain panics, otherwise the base values merged with every round's contribution and both challenge lists; `GipaVerifyTippMipp` is proved equal to it |
| GipaVerify.GipaVerifyTippMipp | src/groth16/aggregate/verify.rs:281-445 | returns the folded state and both challenge lists in generation order, or a panic exactly where the chain has one |
| GipaVerify.GipaFoldAnyOrder | src/groth16/aggregate/verify.rs:372-439 | the result of `gipa_verify_tipp_mipp` is the same for any order in which the parallel iterator absorbs the operations |
| AggregateVerify.PairingChecks.constructor | src/groth16/aggregate/verify.rs:48 | a fresh accumulator has not been invalidated |
| AggregateVerify.PairingChecks.Invalidate | src/groth16/aggregate/verify.rs:264-269 | after `invalidate()` the accumulator can no longer accept |
| AggregateVerify.AggregateChallenge | src/groth16/aggregate/verify.rs:35-40 | `r` is the oracle over both `com_ab` components and both `com_c` components, in that order |
| AggregateVerify.ValidatePublicInputs | src/groth16/aggregate/verify.rs:42-46 | the check passes if and only if every public input has length `ic.len() - 1` |
| AggregateVerify.GeomSumTelescopes | src/groth16/aggregate/verify.rs:66-73 | `(1 + r + … + r^(n-1)) · (r - 1) == r^n - 1` |
| AggregateVerify.GeomSumClosedForm | src/groth16/aggregate/verify.rs:66-73 | `(r^n - 1) · (r - 1)^-1` is the sum of the geometric progression |
| AggregateVerify.RSum | src/groth16/aggregate/verify.rs:70-73 | `r_sum` is `1 + r + … + r^(n-1)`; it panics exactly when `r - 1` has no inverse, which over the prime field means exactly when `r == 1` |
| AggregateVerify.StepInvertible | src/groth16/aggregate/verify.rs:72 | `r - 1` has no inverse when `r == 1`, and over the prime field only then |
| AggregateVerify.ColumnCombination | src/groth16/aggregate/verify.rs:128-137 | the getter returns `Σ_j public_inputs[j][i] · w_j`, with `w_0 = 1` and `w_j = powers[j]` for `j ≥ 1` |
| AggregateVerify.PowersLeadWithOne | src/groth16/aggregate/verify.rs:128-137 | with the powers of `r` the getter's implicit first weight is `r^0`, so column `i` combines to `Σ_j public_inputs[j][i] · r^j` |
| AggregateVerify.WeightedColumnUpdate | src/groth16/aggregate/verify.rs:128-137 | the column combination is linear: adding `x` to input `j` adds `x · w_j` |
| AggregateVerify.ComputePublicInputScalars | src/groth16/aggregate/verify.rs:139-143 | the multi-exponentiation's scalar list has one entry per public-input element, entry `i` being the getter at column `i` |
| AggregateVerify.ReversedInvolution | src/groth16/aggregate/verify.rs:186-187 | reversing the challenge lists loses nothing: reversing twice restores them |
| AggregateVerify.Reversed | src/groth16/aggregate/verify.rs:186-187 | `reverse()` as a value: same length, elements in the opposite order; `ReversedInvolution` is its law |
| AggregateVerify.VerifyTippMipp | src/groth16/aggregate/verify.rs:166-270 | panics where GIPA panics, when there are no challenges and when `r_shift` has no inverse. Otherwise it hands the KZG checks the reversed lists, the point `oracle(first challenge, v keys, w keys)` and `r_shift^-1`. It invalidates the accumulator if and only if `final_c^final_r != zc` and otherwise leaves it as it was |
| AggregateVerify.TippKzgInputs | src/groth16/aggregate/verify.rs:186-236 | the KZG inputs hold one challenge per round, the first being the one generated last; each is paired with its own inverse, and the `w` shift inverts `r_shift` |
| AggregateVerify.TippDoneParts | src/groth16/aggregate/verify.rs:178-256 | a run that reaches the KZG checks had a complete challenge loop, at least one round and an invertible shift; it hands over the reversed challenge lists and the state GIPA folded, which the TIPP and MIPP equations read |
| AggregateVerify.KzgTranscript | src/groth16/aggregate/verify.rs:192-198 | the KZG challenge point hashes five operands, the first reversed challenge first, then both `v` keys and both `w` keys |
| AggregateVerify.TippMippOutcome | src/groth16/aggregate/verify.rs:166-270 | how `verify_tipp_mipp` ends, as a value: a panic where GIPA, `first()` or the shift inverse panics, otherwise the KZG inputs and folded state it hands the pairing checks and whether `final_c^final_r == zc`; `VerifyTippMipp` is proved against it |
| AggregateVerify.TippPanics | src/groth16/aggregate/verify.rs:192-229 | over the prime field `verify_tipp_mipp` panics exactly when a round's oracle output is zero, there are no rounds, or `r_shift` is zero |
| AggregateVerify.VerifyAggregateProof | src/groth16/aggregate/verify.rs:28-164 | a bad input length gives `MalformedVerifyingKey`. Otherwise the call panics, or returns `Ok` of the accumulator verdict: the `zc` check, and the pairing verdict over the proof (its `final_a`, `final_b`, `final_c`, final keys, KZG openings, `agg_c` and `ip_ab`), the folded GIPA state and KZG inputs handed over by `verify_tipp_mipp`, `r_sum` and the column combinations |
| AggregateVerify.AggregateOutcome | src/groth16/aggregate/verify.rs:28-164 | the result of `verify_aggregate_proof`, as a value: `MalformedVerifyingKey`, a panic, or `Ok` of the `zc` check and the pairing verdict; `VerifyAggregateProof` is proved equal to it, and `MalformedExactly`, `AggregatePanics`, `AcceptedMeansChecked` and `ZMismatchRejected` characterise it |
| AggregateVerify.MalformedExactly | src/groth16/aggregate/verify.rs:42-46 | `MalformedVerifyingKey` is returned if and only if some public input has the wrong length |
| AggregateVerify.AggregatePanics | src/groth16/aggregate/verify.rs:66-137 | with well-sized inputs, the verifier panics exactly when there are no public inputs, `r` is 0 or 1, a GIPA challenge is zero, or there are no rounds |
| AggregateVerify.AcceptedMeansChecked | src/groth16/aggregate/verify.rs:157-163 | `Ok(true)` means the `zc` check passed and the pairing verdict holds on the proof, the state GIPA folded, the KZG inputs, `r_sum` and `Σ_j public_inputs[j][i] · r^j` |
| AggregateVerify.ZMismatchRejected | src/groth16/aggregate/verify.rs:264-269 | a `final_c^final_r` mismatch is never accepted, whatever the pairings say |
| NovaProver.Empty | src/nova/prover.rs:88-99 | a fresh recorder has nothing recorded and consistent bookkeeping |
| NovaProver.PushAux | src/nova/prover.rs:107-111 | `alloc` appends the value at the next aux index, adds one element to both aux trackers, and changes nothing else |
| NovaProver.PushInput | src/nova/prover.rs:120-123 | `alloc_input` appends the value at the next input index, adds one element to the B input tracker, and leaves aux, `a`, `b` and `c` alone |
| NovaProver.PushConstraint | src/nova/prover.rs:172-174 | `enforce` appends exactly one evaluation to each of `a`, `b` and `c` and keeps the assignments |
| NovaProver.ExtendInputDensity | src/nova/prover.rs:199 | the input tracker drops the other tracker's first element, the one variable |
| NovaProver.Concat | src/nova/prover.rs:197-210 | `extend` keeps this recorder's vectors as a prefix, then appends the other's, dropping its first input; consistency is preserved |
| NovaProver.ConcatRightUnit | src/nova/prover.rs:206-208 | extending by a recorder that holds only its one variable changes nothing |
| NovaProver.ConcatLeftUnit | src/nova/prover.rs:206-208 | a recorder holding only the one variable, extended by `s`, is `s` |
| NovaProver.ConcatAssoc | src/nova/prover.rs:197-210 | extending in steps or all at once gives the same recorder |
| NovaProver.AllocAllAppends | src/nova/prover.rs:101-112 | successive `alloc`s append their values in order and keep the bookkeeping |
| NovaProver.ProvingAssignment.New | src/nova/prover.rs:88-99 | `new()` gives empty vectors and fresh trackers |
| NovaProver.ProvingAssignment.Alloc | src/nova/prover.rs:101-112 | an error from `f` is returned with the state unchanged. Otherwise the value is pushed, `Aux(len - 1)` names it, and the new state is `PushAux` of the old |
| NovaProver.ProvingAssignment.AllocInput | src/nova/prover.rs:114-124 | an error from `f` is returned with the state unchanged. Otherwise the value is pushed, `Input(len - 1)` names it, and the new state is `PushInput` of the old |
| NovaProver.ProvingAssignment.Enforce | src/nova/prover.rs:126-175 | records `eval` of the three linear combinations over the current assignments and preserves consistency |
| NovaProver.ProvingAssignment.PushNamespace | src/nova/prover.rs:177-183 | leaves the state unchanged |
| NovaProver.ProvingAssignment.PopNamespace | src/nova/prover.rs:185-187 | leaves the state unchanged |
| NovaProver.ProvingAssignment.GetRoot | src/nova/prover.rs:189-191 | the root is the recorder itself |
| NovaProver.ProvingAssignment.IsExtensible | src/nova/prover.rs:193-195 | always true |
| NovaProver.ProvingAssignment.Extend | src/nova/prover.rs:197-210 | the new state is `Concat` of the old state and `other`; it needs `other` to hold at least one input, because the slice `[1..]` would panic otherwise |
| NovaProver.ProvingAssignment.Eq | src/nova/prover.rs:70-79 | equal exactly when all eight fields are equal |
| NovaProver.EqEquivalence | src/nova/prover.rs:70-79 | recorder equality is reflexive, symmetric and transitive |

## Left out

- Pairings, Miller loops, final exponentiation and the KZG opening checks (`verify_kzg_opening_g1/g2`) are not modelled. `PairingChecks::verify` is a caller-supplied verdict. It is given the proof and the values the verifier derives: the folded GIPA state, the KZG inputs, `r_sum` and the column combinations. The five TIPP and MIPP equations, the two KZG openings, the Groth16 equation and `merge_pair(one, ip_ab)` are all inside this verdict. `PairingChecks` is reduced to its invalidated flag, and its random coefficients (`rng`) are left out.
- The G1 scalar multiplications that build the Groth16 equation's points are not modelled: `alpha_g1 · r_sum` and `ic[0] · r_sum + totsi`, where `totsi` is the multi-exponentiation of the `ic` bases by the column combinations. The verdict receives `r_sum` and the column combinations, the scalars these points are built from.
- The `oracle!` macro is left out: its SHA-256 hashing and byte encoding are not modelled. It is represented by a function parameter over the sequence of hashed operands, whose order is kept.
- The `rayon` scope, the `par!` macro and the channel are not modelled; the model runs the tasks one after another. Lemmas (`FoldOpsSplit`, `FoldOpsPermutation`, `GipaFoldAnyOrder`) show that the parallel fold-and-reduce cannot depend on how the work is split or ordered. A panic in any task makes the whole call a panic (`Panic`).
- Panics in the verifier (`unwrap` of a missing inverse, `first()` of no challenges, `public_inputs[0]` of no inputs) are modelled as error results, not as preconditions.
- ProvingAssignment.Extend (`NovaProver.ProvingAssignment.Extend`, and `NovaProver.Concat` which specifies it): the panic of the slice `input_assignment[1..]` when `other` holds no input is a precondition (`|other.inputAssignment| >= 1`), not an error result. The source assumes that `other` holds the one variable its synthesis allocated first; the model states that assumption instead of modelling the panic when it fails.
- `structured_scalar_power` and `par_multiscalar` are not modelled. The powers vector is taken to be `r^0, r^1, …` (`Powers`), as the comment in the source says, and the multi-exponentiation is reduced to the list of scalars it reads through the getter.
- VerifyTippMipp: the single-element `multiexponentiation(&[final_c], &[final_r])` is modelled as one application of the group's scalar action.
- `IsPrime(P)` is not proved, because primality of a 255-bit number is beyond the verifier. It is a hypothesis of the lemmas that need it (`InverseExists`, `ChainFailsOnZero`, `StepInvertible`, `TippPanics`, `AggregatePanics`, and the fourth ensures of `RSum`).
- The `u64` cast of `public_inputs.len()` is not modelled; on 64-bit targets it is lossless.
- `DensityTracker` is modelled as its element count. `LinearCombination::eval` is an opaque caller-supplied function. The density bits that `eval` sets are not modelled; they do not change the count.
- NovaProver.ExtendInputDensity: the `extend(..., true)` count is modelled as dropping the other tracker's first element (`n + m - 1`, or `n` when the other tracker is empty). The tracker's own source is not part of this model, so any special case it has for an empty receiving tracker is not captured.
- The assignment's `Debug` formatting, the logging and the timing are not modelled.
