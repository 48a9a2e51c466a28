/**
 * `verify_aggregate_proof` and `verify_tipp_mipp`: the checks of an
 * aggregated Groth16 proof that do not need a pairing. The pairing products
 * themselves are represented by a verdict the caller supplies; what is
 * modelled is the proof, the folded state, the KZG inputs and the scalars
 * the verifier hands that verdict, every early error
 * and panic, and the one check that invalidates the pairing accumulator
 * directly.
 */
module AggregateVerify {
  import opened Results
  import opened Field
  import opened Algebra
  import opened Transcript
  import opened FoldState
  import opened GipaVerify

  /** The pairing accumulator, reduced to whether it has been invalidated. */
  class PairingChecks {
    var valid: bool

    /** `PairingChecks::new`: a fresh accumulator that has not been invalidated. */
    constructor ()
      ensures valid
    {
      valid := true;
    }

    /** `invalidate()`: the accumulated check can no longer succeed. */
    method Invalidate()
      modifies this
      ensures !valid
    {
      valid := false;
    }
  }

  /** How `verify_aggregate_proof` fails: a public input of the wrong length, or a panic
      (an `unwrap` of a missing inverse, the first of no challenges, the first of no inputs). */
  datatype VerifyError = MalformedVerifyingKey | Panic

  // ---------------------------------------------------------------------------
  // Public-input validation.

  /** Every public input has one element fewer than the verifying key's `ic` vector. */
  predicate WellSized(publicInputs: seq<seq<Fr>>, icLen: nat)
  {
    forall j :: 0 <= j < |publicInputs| ==> |publicInputs[j]| + 1 == icLen
  }

  /** The length check at the top of `verify_aggregate_proof`, stopping at the first bad input. */
  method ValidatePublicInputs(publicInputs: seq<seq<Fr>>, icLen: nat) returns (ok: bool)
    ensures ok <==> WellSized(publicInputs, icLen)
  {
    var j := 0;
    while j < |publicInputs|
      invariant 0 <= j <= |publicInputs|
      invariant forall k :: 0 <= k < j ==> |publicInputs[k]| + 1 == icLen
    {
      if |publicInputs[j]| + 1 != icLen {
        return false;
      }
      j := j + 1;
    }
    return true;
  }

  // ---------------------------------------------------------------------------
  // The sum of the geometric progression of `r`.

  /** `1 + r + ... + r^(n-1)`. */
  function GeomSum(r: Fr, n: nat): (s: Fr)
  {
    if n == 0 then 0 else Add(GeomSum(r, n - 1), Pow(r, n - 1))
  }

  /** `(1 + r + ... + r^(n-1)) * (r - 1) == r^n - 1`. */
  lemma {:induction false} GeomSumTelescopes(r: Fr, n: nat)
    ensures Mul(GeomSum(r, n), Sub(r, 1)) == Sub(Pow(r, n), 1)
  {
    if n > 0 {
      GeomSumTelescopes(r, n - 1);
      var s, x, d := GeomSum(r, n - 1), Pow(r, n - 1), Sub(r, 1);
      calc {
        Mul(GeomSum(r, n), d);
        Mul(Add(s, x), d);
        { MulAddDistrib(s, x, d); }
        Add(Mul(s, d), Mul(x, d));
        Add(Sub(x, 1), Mul(x, d));
        { MulSubDistrib(x, r, 1); MulOne(x); }
        Add(Sub(x, 1), Sub(Pow(r, n), x));
        { SubTelescope(x, Pow(r, n)); }
        Sub(Pow(r, n), 1);
      }
    }
  }

  /** The closed form the verifier evaluates is the sum of the progression. */
  lemma GeomSumClosedForm(r: Fr, n: nat, b: Fr)
    requires Mul(Sub(r, 1), b) == 1
    ensures Mul(Sub(Pow(r, n), 1), b) == GeomSum(r, n)
  {
    var s := GeomSum(r, n);
    GeomSumTelescopes(r, n);
    MulAssoc(s, Sub(r, 1), b);
    MulOne(s);
  }

  /** `r - 1` has no inverse when `r` is one, and over a prime field only then. */
  lemma StepInvertible(r: Fr)
    ensures r == 1 ==> Inverse(Sub(r, 1)).None?
    ensures IsPrime(P) ==> (Inverse(Sub(r, 1)).None? <==> r == 1)
  {
    if IsPrime(P) && r != 1 {
      InverseExists(Sub(r, 1));
    }
  }

  /** `r_sum`: `(r^n - 1) * (r - 1)^-1`; `None` where the inverse is missing and the source panics. */
  method RSum(r: Fr, n: nat) returns (res: Option<Fr>)
    ensures res.None? <==> Inverse(Sub(r, 1)).None?
    ensures res.Some? ==> res.value == GeomSum(r, n)
    ensures r == 1 ==> res.None?
    ensures IsPrime(P) ==> (res.None? <==> r == 1)
  {
    var rSum := Pow(r, n);
    rSum := Sub(rSum, 1);
    var b := Inverse(Sub(r, 1));
    StepInvertible(r);
    if b.None? {
      return None;
    }
    GeomSumClosedForm(r, n, b.value);
    rSum := Mul(rSum, b.value);
    return Some(rSum);
  }

  // ---------------------------------------------------------------------------
  // The public-input getter.

  /** `r^0, r^1, ..., r^(n-1)`: the vector the verifier weights the public inputs with. */
  function Powers(r: Fr, n: nat): (ps: seq<Fr>)
    ensures |ps| == n
  {
    seq(n, j requires 0 <= j => Pow(r, j))
  }

  /** Column `i` has an element in each of the first `k` public inputs. */
  ghost predicate HasColumn(publicInputs: seq<seq<Fr>>, i: nat, k: nat)
  {
    k <= |publicInputs| && forall j :: 0 <= j < k ==> i < |publicInputs[j]|
  }

  /** `sum over j < k of publicInputs[j][i] * weights[j]`. */
  function WeightedColumn(publicInputs: seq<seq<Fr>>, weights: seq<Fr>, i: nat, k: nat): (c: Fr)
    requires HasColumn(publicInputs, i, k) && k <= |weights|
  {
    if k == 0 then 0
    else Add(WeightedColumn(publicInputs, weights, i, k - 1), Mul(publicInputs[k - 1][i], weights[k - 1]))
  }

  /** The getter: column `i` of the public inputs, the first input taken as it is and every
      later input `j` weighted by `powers[j]`. The first weight is one whatever `powers[0]` is. */
  method ColumnCombination(publicInputs: seq<seq<Fr>>, powers: seq<Fr>, i: nat) returns (c: Fr)
    requires 1 <= |publicInputs| <= |powers|
    requires HasColumn(publicInputs, i, |publicInputs|)
    ensures c == WeightedColumn(publicInputs, [1] + powers[1..], i, |publicInputs|)
  {
    ghost var weights := [1] + powers[1..];
    c := publicInputs[0][i];
    MulOne(c);
    assert c == WeightedColumn(publicInputs, weights, i, 1);
    for j := 1 to |publicInputs|
      invariant c == WeightedColumn(publicInputs, weights, i, j)
    {
      var ai := publicInputs[j][i];
      ai := Mul(ai, powers[j]);
      c := Add(c, ai);
    }
  }

  /** With the powers of `r` the first weight is already one, so the getter computes
      `sum over j of publicInputs[j][i] * r^j`. */
  lemma PowersLeadWithOne(r: Fr, n: nat)
    requires n >= 1
    ensures [1] + Powers(r, n)[1..] == Powers(r, n)
  {
  }

  /** Each column combination is linear in the public inputs: adding `x` to entry `j` of the
      column adds `x` times the weight of `j` to the combination. */
  lemma {:induction false} WeightedColumnUpdate(publicInputs: seq<seq<Fr>>, updated: seq<seq<Fr>>, weights: seq<Fr>,
                                                i: nat, k: nat, j: nat, x: Fr)
    requires HasColumn(publicInputs, i, k) && HasColumn(updated, i, k) && k <= |weights|
    requires j < k
    requires updated[j][i] == Add(publicInputs[j][i], x)
    requires forall l :: 0 <= l < k && l != j ==> updated[l][i] == publicInputs[l][i]
    ensures WeightedColumn(updated, weights, i, k) == Add(WeightedColumn(publicInputs, weights, i, k), Mul(x, weights[j]))
  {
    var before, after := WeightedColumn(publicInputs, weights, i, k - 1), WeightedColumn(updated, weights, i, k - 1);
    var w := weights[k - 1];
    if j < k - 1 {
      WeightedColumnUpdate(publicInputs, updated, weights, i, k - 1, j, x);
      var y := Mul(publicInputs[k - 1][i], w);
      calc {
        WeightedColumn(updated, weights, i, k);
        Add(Add(before, Mul(x, weights[j])), y);
        { AddAssoc(before, Mul(x, weights[j]), y); AddAssoc(before, y, Mul(x, weights[j])); }
        Add(Add(before, y), Mul(x, weights[j]));
      }
    } else {
      var a := publicInputs[k - 1][i];
      WeightedColumnPrefix(publicInputs, updated, weights, i, k - 1);
      calc {
        WeightedColumn(updated, weights, i, k);
        Add(before, Mul(Add(a, x), w));
        { MulAddDistrib(a, x, w); }
        Add(before, Add(Mul(a, w), Mul(x, w)));
        { AddAssoc(before, Mul(a, w), Mul(x, w)); }
        Add(Add(before, Mul(a, w)), Mul(x, w));
      }
    }
  }

  /** The combination of the first `k` rows reads only those rows. */
  lemma {:induction false} WeightedColumnPrefix(xs: seq<seq<Fr>>, ys: seq<seq<Fr>>, weights: seq<Fr>, i: nat, k: nat)
    requires HasColumn(xs, i, k) && HasColumn(ys, i, k) && k <= |weights|
    requires forall j :: 0 <= j < k ==> xs[j][i] == ys[j][i]
    ensures WeightedColumn(xs, weights, i, k) == WeightedColumn(ys, weights, i, k)
  {
    if k > 0 {
      WeightedColumnPrefix(xs, ys, weights, i, k - 1);
    }
  }

  /** The scalars of the public-input multi-exponentiation: one weighted column per input element. */
  function PublicInputScalars(publicInputs: seq<seq<Fr>>, powers: seq<Fr>): (scalars: seq<Fr>)
    requires 1 <= |publicInputs| <= |powers|
    requires forall i :: 0 <= i < |publicInputs[0]| ==> HasColumn(publicInputs, i, |publicInputs|)
  {
    seq(|publicInputs[0]|, i requires 0 <= i < |publicInputs[0]| =>
      WeightedColumn(publicInputs, [1] + powers[1..], i, |publicInputs|))
  }

  /** The getter evaluated at every column of the public inputs, as the multi-exponentiation does. */
  method ComputePublicInputScalars(publicInputs: seq<seq<Fr>>, powers: seq<Fr>) returns (scalars: seq<Fr>)
    requires 1 <= |publicInputs| <= |powers|
    requires forall i :: 0 <= i < |publicInputs[0]| ==> HasColumn(publicInputs, i, |publicInputs|)
    ensures |scalars| == |publicInputs[0]|
    ensures forall i :: 0 <= i < |scalars| ==> scalars[i] == WeightedColumn(publicInputs, [1] + powers[1..], i, |publicInputs|)
  {
    scalars := [];
    for i := 0 to |publicInputs[0]|
      invariant |scalars| == i
      invariant forall k :: 0 <= k < i ==> scalars[k] == WeightedColumn(publicInputs, [1] + powers[1..], k, |publicInputs|)
    {
      var c := ColumnCombination(publicInputs, powers, i);
      scalars := scalars + [c];
    }
  }

  // ---------------------------------------------------------------------------
  // verify_tipp_mipp.

  /** `s` in the opposite order, as `Vec::reverse` leaves it. */
  function Reversed<X>(s: seq<X>): (r: seq<X>)
    ensures |r| == |s|
  {
    seq(|s|, i requires 0 <= i < |s| => s[|s| - 1 - i])
  }

  lemma ReversedInvolution<X>(s: seq<X>)
    ensures Reversed(Reversed(s)) == s
  {
  }

  /** What the two KZG opening checks are given: the reversed challenge lists, the KZG
      challenge point and the inverse of the shift the `w` key was rescaled by. */
  datatype KzgInputs = KzgInputs(challenges: seq<Fr>, challengesInv: seq<Fr>, point: Fr, wShift: Fr)

  /** The operands hashed for the KZG challenge point: the first reversed challenge, then
      both final `v` keys and both final `w` keys. */
  function KzgTranscript<T, G, H>(first: Fr, g: GipaProof<T, G, H>): (ops: seq<Operand<T, G, H>>)
    ensures |ops| == 5 && ops[0] == Scalar(first)
  {
    [Scalar(first), Twist(g.finalVKey.0), Twist(g.finalVKey.1), Source(g.finalWKey.0), Source(g.finalWKey.1)]
  }

  /** What `verify_tipp_mipp` hands the pairing accumulator besides the proof itself: the KZG
      inputs and the folded state, whose `tab`, `uab`, `zab`, `tc` and `uc` the TIPP and MIPP
      pairing equations are compared against. */
  datatype TippInputs<T, G> = TippInputs(kzg: KzgInputs, finalRes: Tuz<T, G>)

  /** How `verify_tipp_mipp` ends: a panic, or the inputs of its pairing checks together with
      whether the final `zc` equals `final_c` raised to `final_r`. */
  datatype TippOutcome<T, G> = TippPanic | TippDone(inputs: TippInputs<T, G>, zMatches: bool)

  function TippMippOutcome<T, G(==), H>(gt: Monoid<T>, g1: Monoid<G>, proof: AggregateProof<T, G, H>, rShift: Fr, oracle: Oracle<T, G, H>)
    : (r: TippOutcome<T, G>)
  {
    match GipaResult(gt, g1, proof, oracle)
    case None => TippPanic
    case Some(out) =>
      var challenges, challengesInv := Reversed(out.challenges), Reversed(out.challengesInv);
      if |challenges| == 0 then TippPanic
      else
        match Inverse(rShift)
        case None => TippPanic
        case Some(wShift) =>
          var point := oracle(KzgTranscript(challenges[0], proof.gipa));
          TippDone(TippInputs(KzgInputs(challenges, challengesInv, point, wShift), out.finalRes),
                   g1.scale(proof.gipa.finalC, proof.gipa.finalR) == out.finalRes.zc)
  }

  /** `verify_tipp_mipp`: run GIPA, reverse its challenges, derive the KZG challenge point and
      invalidate the accumulator when `final_c^final_r` differs from the folded `zc`. */
  method VerifyTippMipp<T(!new), G(==, !new), H>(gt: Monoid<T>, g1: Monoid<G>, proof: AggregateProof<T, G, H>, rShift: Fr,
                                              oracle: Oracle<T, G, H>, checks: PairingChecks)
    returns (out: Option<TippInputs<T, G>>)
    requires Laws(gt, g1)
    modifies checks
    ensures TippMippOutcome(gt, g1, proof, rShift, oracle).TippPanic? ==> out.None?
    ensures TippMippOutcome(gt, g1, proof, rShift, oracle).TippDone? ==>
      out == Some(TippMippOutcome(gt, g1, proof, rShift, oracle).inputs) &&
      checks.valid == (old(checks.valid) && TippMippOutcome(gt, g1, proof, rShift, oracle).zMatches)
  {
    var gipa := GipaVerifyTippMipp(gt, g1, proof, oracle);
    if gipa.None? {
      return None;
    }
    var finalRes := gipa.value.finalRes;
    var challenges := Reversed(gipa.value.challenges);
    var challengesInv := Reversed(gipa.value.challengesInv);
    if |challenges| == 0 {
      return None;
    }
    var point := oracle(KzgTranscript(challenges[0], proof.gipa));
    var wShift := Inverse(rShift);
    if wShift.None? {
      return None;
    }
    var finalZ := g1.scale(proof.gipa.finalC, proof.gipa.finalR);
    if finalZ != finalRes.zc {
      checks.Invalidate();
    }
    return Some(TippInputs(KzgInputs(challenges, challengesInv, point, wShift.value), finalRes));
  }

  /** A run that reaches the KZG checks had a full challenge chain, at least one round and an
      invertible shift; the KZG inputs hold the chain's lists reversed, and the pairing checks
      are handed the state GIPA folded. */
  lemma TippDoneParts<T, G, H>(gt: Monoid<T>, g1: Monoid<G>, proof: AggregateProof<T, G, H>, rShift: Fr, oracle: Oracle<T, G, H>)
    requires TippMippOutcome(gt, g1, proof, rShift, oracle).TippDone?
    ensures var k := TippMippOutcome(gt, g1, proof, rShift, oracle).inputs.kzg;
      var n := NumRounds(proof.gipa);
      var chain := ChallengeChain(proof.gipa, oracle, n);
      n > 0 && chain.Some? &&
      k.challenges == Reversed(chain.value.challenges) && k.challengesInv == Reversed(chain.value.challengesInv) &&
      Inverse(rShift) == Some(k.wShift) &&
      GipaResult(gt, g1, proof, oracle).Some? &&
      TippMippOutcome(gt, g1, proof, rShift, oracle).inputs.finalRes == GipaResult(gt, g1, proof, oracle).value.finalRes
  {
    var out := GipaResult(gt, g1, proof, oracle).value;
    var ch := ChallengeChain(proof.gipa, oracle, NumRounds(proof.gipa)).value;
    assert out.challenges == ch.challenges && out.challengesInv == ch.challengesInv;
  }

  /** The inputs handed to the KZG checks: one challenge per round, the first being the one
      generated last; each challenge paired with its own inverse; and the `w` shift inverting
      `rShift`. */
  lemma TippKzgInputs<T, G, H>(gt: Monoid<T>, g1: Monoid<G>, proof: AggregateProof<T, G, H>, rShift: Fr, oracle: Oracle<T, G, H>)
    requires TippMippOutcome(gt, g1, proof, rShift, oracle).TippDone?
    ensures var k := TippMippOutcome(gt, g1, proof, rShift, oracle).inputs.kzg;
      var n := NumRounds(proof.gipa);
      n > 0 && |k.challenges| == n && |k.challengesInv| == n &&
      ChallengeChain(proof.gipa, oracle, n) == Some(Challenges(Reversed(k.challenges), Reversed(k.challengesInv))) &&
      k.challenges[0] == ChallengeChain(proof.gipa, oracle, n).value.challenges[n - 1] &&
      (forall i :: 0 <= i < n ==> Mul(k.challenges[i], k.challengesInv[i]) == 1) &&
      Mul(rShift, k.wShift) == 1
  {
    var k := TippMippOutcome(gt, g1, proof, rShift, oracle).inputs.kzg;
    var n := NumRounds(proof.gipa);
    TippDoneParts(gt, g1, proof, rShift, oracle);
    var ch := ChallengeChain(proof.gipa, oracle, n).value;
    ReversedInvolution(ch.challenges);
    ReversedInvolution(ch.challengesInv);
    forall i | 0 <= i < n
      ensures Mul(k.challenges[i], k.challengesInv[i]) == 1
    {
      ChallengesInvert(proof.gipa, oracle, n, ch, n - 1 - i);
    }
  }

  /** Over a prime field `verify_tipp_mipp` panics exactly when a GIPA round's oracle output is
      zero, when there are no rounds, or when the shift is zero. */
  lemma TippPanics<T, G, H>(gt: Monoid<T>, g1: Monoid<G>, proof: AggregateProof<T, G, H>, rShift: Fr, oracle: Oracle<T, G, H>)
    requires IsPrime(P)
    ensures TippMippOutcome(gt, g1, proof, rShift, oracle).TippPanic? <==>
      ChallengeChain(proof.gipa, oracle, NumRounds(proof.gipa)).None? || NumRounds(proof.gipa) == 0 || rShift == 0
  {
    var n := NumRounds(proof.gipa);
    var chain := ChallengeChain(proof.gipa, oracle, n);
    if chain.Some? {
      ChainShape(proof.gipa, oracle, n, chain.value);
    }
    if rShift != 0 {
      InverseExists(rShift);
    }
  }

  // ---------------------------------------------------------------------------
  // verify_aggregate_proof.

  /** The operands hashed for the random linear combination `r`: both pair commitments. */
  function AggregateChallenge<T, G, H>(proof: AggregateProof<T, G, H>, oracle: Oracle<T, G, H>): (r: Fr)
  {
    oracle([Target(proof.comAB.t), Target(proof.comAB.u), Target(proof.comC.t), Target(proof.comC.u)])
  }

  /** Every value the verifier derives for its pairing accumulator: what `verify_tipp_mipp`
      hands over (the KZG inputs and the folded GIPA state), `r_sum`, and the public-input
      column combinations. */
  datatype PairingInputs<T, G> = PairingInputs(tipp: TippInputs<T, G>, rSum: Fr, scalars: seq<Fr>)

  /** The outcome of `verify_aggregate_proof`. `pairing` stands for `PairingChecks::verify` over
      every pairing equation merged into the accumulator: the five TIPP and MIPP equations, the
      two KZG openings, the Groth16 equation and `ip_ab`. It is given the proof, which holds the
      final values, keys, openings, `agg_c` and `ip_ab` those equations read, and the values the
      verifier derives for them. */
  function AggregateOutcome<T, G(==), H>(gt: Monoid<T>, g1: Monoid<G>, proof: AggregateProof<T, G, H>,
                                     publicInputs: seq<seq<Fr>>, icLen: nat, oracle: Oracle<T, G, H>,
                                     pairing: (AggregateProof<T, G, H>, PairingInputs<T, G>) -> bool): (res: Result<bool, VerifyError>)
  {
    if !WellSized(publicInputs, icLen) then Err(MalformedVerifyingKey)
    else
      var r := AggregateChallenge(proof, oracle);
      var tipp := TippMippOutcome(gt, g1, proof, r, oracle);
      if tipp.TippPanic? || Inverse(Sub(r, 1)).None? || |publicInputs| == 0 then Err(Panic)
      else
        var scalars := PublicInputScalars(publicInputs, Powers(r, |publicInputs|));
        Ok(tipp.zMatches && pairing(proof, PairingInputs(tipp.inputs, GeomSum(r, |publicInputs|), scalars)))
  }

  /** `verify_aggregate_proof`. The concurrent tasks of the source run here one after the
      other; a panic in any of them makes the whole call panic. */
  method VerifyAggregateProof<T(!new), G(==, !new), H>(gt: Monoid<T>, g1: Monoid<G>, proof: AggregateProof<T, G, H>,
                                                    publicInputs: seq<seq<Fr>>, icLen: nat, oracle: Oracle<T, G, H>,
                                                    pairing: (AggregateProof<T, G, H>, PairingInputs<T, G>) -> bool)
    returns (res: Result<bool, VerifyError>)
    requires Laws(gt, g1)
    ensures res == AggregateOutcome(gt, g1, proof, publicInputs, icLen, oracle, pairing)
  {
    var r := AggregateChallenge(proof, oracle);
    var ok := ValidatePublicInputs(publicInputs, icLen);
    if !ok {
      return Err(MalformedVerifyingKey);
    }
    ghost var outcome := TippMippOutcome(gt, g1, proof, r, oracle);
    var checks := new PairingChecks();
    var tipp := VerifyTippMipp(gt, g1, proof, r, oracle, checks);
    var rSum := RSum(r, |publicInputs|);
    if tipp.None? || rSum.None? || |publicInputs| == 0 {
      return Err(Panic);
    }
    assert outcome.TippDone? && checks.valid == outcome.zMatches;
    var powers := Powers(r, |publicInputs|);
    assert forall i :: 0 <= i < |publicInputs[0]| ==> HasColumn(publicInputs, i, |publicInputs|);
    var scalars := ComputePublicInputScalars(publicInputs, powers);
    assert scalars == PublicInputScalars(publicInputs, powers);
    return Ok(checks.valid && pairing(proof, PairingInputs(tipp.value, rSum.value, scalars)));
  }

  /** A public input of the wrong length, and nothing else, is reported as a malformed key. */
  lemma MalformedExactly<T, G, H>(gt: Monoid<T>, g1: Monoid<G>, proof: AggregateProof<T, G, H>,
                                  publicInputs: seq<seq<Fr>>, icLen: nat, oracle: Oracle<T, G, H>,
                                  pairing: (AggregateProof<T, G, H>, PairingInputs<T, G>) -> bool)
    ensures AggregateOutcome(gt, g1, proof, publicInputs, icLen, oracle, pairing) == Err(MalformedVerifyingKey)
        <==> !WellSized(publicInputs, icLen)
  {
  }

  /** Over a prime field, well-sized inputs make the verifier panic exactly when there are no
      public inputs, when `r` is zero or one, or when GIPA panics or has no rounds. */
  lemma AggregatePanics<T, G, H>(gt: Monoid<T>, g1: Monoid<G>, proof: AggregateProof<T, G, H>,
                                 publicInputs: seq<seq<Fr>>, icLen: nat, oracle: Oracle<T, G, H>,
                                 pairing: (AggregateProof<T, G, H>, PairingInputs<T, G>) -> bool)
    requires IsPrime(P)
    requires WellSized(publicInputs, icLen)
    ensures var r := AggregateChallenge(proof, oracle);
      AggregateOutcome(gt, g1, proof, publicInputs, icLen, oracle, pairing) == Err(Panic) <==>
        |publicInputs| == 0 || r == 0 || r == 1 ||
        ChallengeChain(proof.gipa, oracle, NumRounds(proof.gipa)).None? || NumRounds(proof.gipa) == 0
  {
    var r := AggregateChallenge(proof, oracle);
    TippPanics(gt, g1, proof, r, oracle);
    if r != 1 {
      InverseExists(Sub(r, 1));
    }
  }

  /** An accepted proof passed the `zc` check and the pairing verdict, evaluated on the state
      GIPA folded, the KZG inputs, `r_sum = 1 + r + ... + r^(n-1)` and the columns
      `sum over j of publicInputs[j][i] * r^j`. */
  lemma AcceptedMeansChecked<T, G, H>(gt: Monoid<T>, g1: Monoid<G>, proof: AggregateProof<T, G, H>,
                                      publicInputs: seq<seq<Fr>>, icLen: nat, oracle: Oracle<T, G, H>,
                                      pairing: (AggregateProof<T, G, H>, PairingInputs<T, G>) -> bool)
    requires AggregateOutcome(gt, g1, proof, publicInputs, icLen, oracle, pairing) == Ok(true)
    ensures var r := AggregateChallenge(proof, oracle);
      var n := |publicInputs|;
      var tipp := TippMippOutcome(gt, g1, proof, r, oracle);
      n >= 1 && tipp.TippDone? && tipp.zMatches &&
      GipaResult(gt, g1, proof, oracle).Some? &&
      tipp.inputs.finalRes == GipaResult(gt, g1, proof, oracle).value.finalRes &&
      (forall i :: 0 <= i < |publicInputs[0]| ==> HasColumn(publicInputs, i, n)) &&
      pairing(proof, PairingInputs(tipp.inputs, GeomSum(r, n),
        seq(|publicInputs[0]|, i requires 0 <= i < |publicInputs[0]| => WeightedColumn(publicInputs, Powers(r, n), i, n))))
  {
    var r := AggregateChallenge(proof, oracle);
    PowersLeadWithOne(r, |publicInputs|);
    TippDoneParts(gt, g1, proof, r, oracle);
  }

  /** A `zc` mismatch can never be accepted, whatever the pairings say. */
  lemma ZMismatchRejected<T, G, H>(gt: Monoid<T>, g1: Monoid<G>, proof: AggregateProof<T, G, H>,
                                   publicInputs: seq<seq<Fr>>, icLen: nat, oracle: Oracle<T, G, H>,
                                   pairing: (AggregateProof<T, G, H>, PairingInputs<T, G>) -> bool)
    requires WellSized(publicInputs, icLen)
    requires var tipp := TippMippOutcome(gt, g1, proof, AggregateChallenge(proof, oracle), oracle);
      tipp.TippDone? && !tipp.zMatches
    ensures AggregateOutcome(gt, g1, proof, publicInputs, icLen, oracle, pairing) != Ok(true)
  {
  }
}
