/**
 * `gipa_verify_tipp_mipp`: re-derive the Fiat-Shamir challenges of every GIPA
 * round, one after the other, then fold each round's left values raised to
 * the challenge and right values raised to its inverse into the proof's base
 * commitments.
 */
module GipaVerify {
  import opened Results
  import opened Field
  import opened Algebra
  import opened Transcript
  import opened FoldState

  /** A left/right pair the prover sends in one round. */
  datatype LR<X> = LR(left: X, right: X)

  /** A pair commitment `(T, U)` in the target group. */
  datatype Comm<T> = Comm(t: T, u: T)

  /** The GIPA transcript of the proof and the terminal values the verifier reads; target-group
      elements have type `T`, G1 elements `G`, G2 elements `H`. `finalA` and `finalB` are read
      only by the pairing equations. */
  datatype GipaProof<T, G, H> = GipaProof(
    commsAB: seq<LR<Comm<T>>>,
    zAB: seq<LR<T>>,
    commsC: seq<LR<Comm<T>>>,
    zC: seq<LR<G>>,
    finalA: G,
    finalB: H,
    finalC: G,
    finalR: Fr,
    finalVKey: (H, H),
    finalWKey: (G, G))

  /** `AggregateProof`, with the TIPP/MIPP part flattened into it: the GIPA transcript and the
      KZG openings of the final `v` key (in G2) and `w` key (in G1), which only the pairing
      equations read. */
  datatype AggregateProof<T, G, H> = AggregateProof(
    comAB: Comm<T>,
    comC: Comm<T>,
    ipAB: T,
    aggC: G,
    gipa: GipaProof<T, G, H>,
    vkeyOpening: (H, H),
    wkeyOpening: (G, G))

  /** The number of rounds the verifier walks through: the four per-round vectors are zipped,
      so the shortest one decides. */
  function NumRounds<T, G, H>(g: GipaProof<T, G, H>): (n: nat)
    ensures n <= |g.commsAB| && n <= |g.zAB| && n <= |g.commsC| && n <= |g.zC|
    ensures n == |g.commsAB| || n == |g.zAB| || n == |g.commsC| || n == |g.zC|
  {
    var ab := if |g.commsAB| <= |g.zAB| then |g.commsAB| else |g.zAB|;
    var c := if |g.commsC| <= |g.zC| then |g.commsC| else |g.zC|;
    if ab <= c then ab else c
  }

  /** The operands hashed for round `i`: the seed, then the AB commitments, the AB values,
      the C values and the C commitments, each left before right. */
  function RoundTranscript<T, G, H>(seed: Fr, g: GipaProof<T, G, H>, i: nat): (ops: seq<Operand<T, G, H>>)
    requires i < NumRounds(g)
    ensures |ops| == 13 && ops[0] == Scalar(seed)
  {
    var ab, zab, cc, zc := g.commsAB[i], g.zAB[i], g.commsC[i], g.zC[i];
    [Scalar(seed),
     Target(ab.left.t), Target(ab.left.u), Target(ab.right.t), Target(ab.right.u),
     Target(zab.left), Target(zab.right),
     Source(zc.left), Source(zc.right),
     Target(cc.left.t), Target(cc.left.u), Target(cc.right.t), Target(cc.right.u)]
  }

  /** The challenges and their inverses, in the order they were generated. */
  datatype Challenges = Challenges(challenges: seq<Fr>, challengesInv: seq<Fr>)

  /** The transcript seed of round `i`: zero for the first round, else the challenge of the
      round before. */
  function RoundSeed(challenges: seq<Fr>, i: nat): (s: Fr)
    requires i <= |challenges|
  {
    if i == 0 then 0 else challenges[i - 1]
  }

  /** The challenges of the first `k` rounds; `None` when some round's oracle output has no
      inverse, where the source's `inverse().unwrap()` panics. */
  function ChallengeChain<T, G, H>(g: GipaProof<T, G, H>, oracle: Oracle<T, G, H>, k: nat): (r: Option<Challenges>)
    requires k <= NumRounds(g)
    ensures r.Some? ==> |r.value.challenges| == k && |r.value.challengesInv| == k
  {
    if k == 0 then Some(Challenges([], []))
    else
      match ChallengeChain(g, oracle, k - 1)
      case None => None
      case Some(prev) =>
        var cInv := oracle(RoundTranscript(RoundSeed(prev.challenges, k - 1), g, k - 1));
        match Inverse(cInv)
        case None => None
        case Some(c) => Some(Challenges(prev.challenges + [c], prev.challengesInv + [cInv]))
  }

  /** One step of the chain: a chain of `k > 0` rounds extends the chain of `k - 1` rounds by the
      round's oracle output and its inverse. */
  lemma ChainStep<T, G, H>(g: GipaProof<T, G, H>, oracle: Oracle<T, G, H>, k: nat, ch: Challenges)
    requires 0 < k <= NumRounds(g)
    requires ChallengeChain(g, oracle, k) == Some(ch)
    ensures ChallengeChain(g, oracle, k - 1).Some?
    ensures var prev := ChallengeChain(g, oracle, k - 1).value;
            var cInv := oracle(RoundTranscript(RoundSeed(prev.challenges, k - 1), g, k - 1));
            Inverse(cInv).Some? &&
            ch == Challenges(prev.challenges + [Inverse(cInv).value], prev.challengesInv + [cInv])
  {
  }

  /** Round `i` of a chain of `k` rounds: its inverse is the oracle's output for that round and
      its challenge is the field inverse of that output. */
  lemma {:induction false} ChainAt<T, G, H>(g: GipaProof<T, G, H>, oracle: Oracle<T, G, H>, k: nat, ch: Challenges, i: nat)
    requires i < k <= NumRounds(g)
    requires ChallengeChain(g, oracle, k) == Some(ch)
    ensures i < |ch.challenges| && i < |ch.challengesInv|
    ensures Inverse(ch.challengesInv[i]) == Some(ch.challenges[i])
    ensures ch.challengesInv[i] == oracle(RoundTranscript(RoundSeed(ch.challenges, i), g, i))
    decreases k
  {
    ChainStep(g, oracle, k, ch);
    var prev := ChallengeChain(g, oracle, k - 1).value;
    assert RoundSeed(ch.challenges, i) == RoundSeed(prev.challenges, i);
    if i < k - 1 {
      ChainAt(g, oracle, k - 1, prev, i);
      assert ch.challenges[i] == prev.challenges[i] && ch.challengesInv[i] == prev.challengesInv[i];
    }
  }

  /** The chain has one challenge and one inverse per round; the inverse list holds the oracle's
      output for each round, seeded by zero or the previous challenge, and the challenge list
      holds the field inverse of each output. */
  lemma ChainShape<T, G, H>(g: GipaProof<T, G, H>, oracle: Oracle<T, G, H>, k: nat, ch: Challenges)
    requires k <= NumRounds(g)
    requires ChallengeChain(g, oracle, k) == Some(ch)
    ensures |ch.challenges| == k && |ch.challengesInv| == k
    ensures forall i :: 0 <= i < k ==> Inverse(ch.challengesInv[i]) == Some(ch.challenges[i])
    ensures forall i :: 0 <= i < k ==> ch.challengesInv[i] == oracle(RoundTranscript(RoundSeed(ch.challenges, i), g, i))
  {
    forall i | 0 <= i < k
      ensures Inverse(ch.challengesInv[i]) == Some(ch.challenges[i])
      ensures ch.challengesInv[i] == oracle(RoundTranscript(RoundSeed(ch.challenges, i), g, i))
    {
      ChainAt(g, oracle, k, ch, i);
    }
  }

  /** Each challenge times its inverse is one. */
  lemma ChallengesInvert<T, G, H>(g: GipaProof<T, G, H>, oracle: Oracle<T, G, H>, k: nat, ch: Challenges, i: nat)
    requires k <= NumRounds(g)
    requires ChallengeChain(g, oracle, k) == Some(ch)
    requires i < k
    ensures i < |ch.challenges| && i < |ch.challengesInv|
    ensures Mul(ch.challenges[i], ch.challengesInv[i]) == 1
  {
    ChainShape(g, oracle, k, ch);
    MulComm(ch.challenges[i], ch.challengesInv[i]);
  }

  /** The challenges of a round never depend on later rounds. */
  lemma {:induction false} ChainPrefix<T, G, H>(g: GipaProof<T, G, H>, oracle: Oracle<T, G, H>, j: nat, k: nat, ch: Challenges)
    requires j <= k <= NumRounds(g)
    requires ChallengeChain(g, oracle, k) == Some(ch)
    ensures |ch.challenges| == k && |ch.challengesInv| == k
    ensures ChallengeChain(g, oracle, j) == Some(Challenges(ch.challenges[..j], ch.challengesInv[..j]))
    decreases k - j
  {
    if j < k {
      ChainStep(g, oracle, k, ch);
      var prev := ChallengeChain(g, oracle, k - 1).value;
      assert prev.challenges == ch.challenges[..k - 1];
      assert prev.challengesInv == ch.challengesInv[..k - 1];
      ChainPrefix(g, oracle, j, k - 1, prev);
      assert ch.challenges[..k - 1][..j] == ch.challenges[..j];
      assert ch.challengesInv[..k - 1][..j] == ch.challengesInv[..j];
    } else {
      assert ch.challenges[..j] == ch.challenges && ch.challengesInv[..j] == ch.challengesInv;
    }
  }

  /** Round `i` is reached and the oracle's output for it is zero, the value whose inverse
      the source unwraps. */
  predicate ZeroAt<T, G, H>(g: GipaProof<T, G, H>, oracle: Oracle<T, G, H>, i: nat)
    requires i < NumRounds(g)
  {
    var chain := ChallengeChain(g, oracle, i);
    chain.Some? && oracle(RoundTranscript(RoundSeed(chain.value.challenges, i), g, i)) == 0
  }

  /** Over a prime field the chain breaks exactly at a round whose oracle output is zero. */
  lemma {:induction false} ChainFailsOnZero<T, G, H>(g: GipaProof<T, G, H>, oracle: Oracle<T, G, H>, k: nat)
    requires IsPrime(P)
    requires k <= NumRounds(g)
    ensures ChallengeChain(g, oracle, k).None? <==> exists i :: 0 <= i < k && ZeroAt(g, oracle, i)
  {
    if k > 0 {
      ChainFailsOnZero(g, oracle, k - 1);
      var before := ChallengeChain(g, oracle, k - 1);
      if before.Some? {
        var cInv := oracle(RoundTranscript(RoundSeed(before.value.challenges, k - 1), g, k - 1));
        if cInv != 0 {
          InverseExists(cInv);
          assert !ZeroAt(g, oracle, k - 1);
        } else {
          assert ZeroAt(g, oracle, k - 1);
        }
      } else {
        var i :| 0 <= i < k - 1 && ZeroAt(g, oracle, i);
        assert 0 <= i < k;
      }
    }
  }

  /** Once a round fails, the chain stays broken. */
  lemma {:induction false} ChainNone<T, G, H>(g: GipaProof<T, G, H>, oracle: Oracle<T, G, H>, j: nat, k: nat)
    requires j <= k <= NumRounds(g)
    requires ChallengeChain(g, oracle, j) == None
    ensures ChallengeChain(g, oracle, k) == None
    decreases k - j
  {
    if j < k {
      ChainNone(g, oracle, j, k - 1);
    }
  }

  /** The challenge loop of `gipa_verify_tipp_mipp`. */
  method GenerateChallenges<T, G, H>(g: GipaProof<T, G, H>, oracle: Oracle<T, G, H>) returns (res: Option<Challenges>)
    ensures res == ChallengeChain(g, oracle, NumRounds(g))
  {
    var challenges: seq<Fr> := [];
    var challengesInv: seq<Fr> := [];
    var i := 0;
    while i < NumRounds(g)
      invariant 0 <= i <= NumRounds(g)
      invariant ChallengeChain(g, oracle, i) == Some(Challenges(challenges, challengesInv))
      invariant |challenges| == i
    {
      var transcript: Fr := if |challenges| == 0 then 0 else challenges[|challenges| - 1];
      assert transcript == RoundSeed(challenges, i);
      var cInv := oracle(RoundTranscript(transcript, g, i));
      var c := Inverse(cInv);
      if c.None? {
        assert ChallengeChain(g, oracle, i + 1) == None;
        ChainNone(g, oracle, i + 1, NumRounds(g));
        return None;
      }
      assert ChallengeChain(g, oracle, i + 1) == Some(Challenges(challenges + [c.value], challengesInv + [cInv]));
      challenges := challenges + [c.value];
      challengesInv := challengesInv + [cInv];
      i := i + 1;
    }
    return Some(Challenges(challenges, challengesInv));
  }

  // ---------------------------------------------------------------------------
  // The fold.

  /** The twelve operations emitted for round `i`: left values with the challenge `c`,
      right values with its inverse. */
  function RoundOps<T, G, H>(g: GipaProof<T, G, H>, i: nat, c: Fr, cInv: Fr): (ops: seq<Op<T, G>>)
    requires i < NumRounds(g)
    ensures |ops| == 12
  {
    var ab, zab, cc, zc := g.commsAB[i], g.zAB[i], g.commsC[i], g.zC[i];
    [TAB(ab.left.t, c), TAB(ab.right.t, cInv),
     UAB(ab.left.u, c), UAB(ab.right.u, cInv),
     ZAB(zab.left, c), ZAB(zab.right, cInv),
     TC(cc.left.t, c), TC(cc.right.t, cInv),
     UC(cc.left.u, c), UC(cc.right.u, cInv),
     ZC(zc.left, c), ZC(zc.right, cInv)]
  }

  /** Each round scales its left values by the challenge and its right values by the inverse. */
  lemma RoundOpsExponents<T, G, H>(g: GipaProof<T, G, H>, i: nat, c: Fr, cInv: Fr)
    requires i < NumRounds(g)
    ensures forall j :: 0 <= j < 12 ==> RoundOps(g, i, c, cInv)[j].e == (if j % 2 == 0 then c else cInv)
  {
  }

  /** The operations of the first `k` rounds, round after round. */
  function AllOps<T, G, H>(g: GipaProof<T, G, H>, ch: Challenges, k: nat): (ops: seq<Op<T, G>>)
    requires k <= NumRounds(g) && k <= |ch.challenges| && k <= |ch.challengesInv|
  {
    if k == 0 then []
    else AllOps(g, ch, k - 1) + RoundOps(g, k - 1, ch.challenges[k - 1], ch.challengesInv[k - 1])
  }

  /** What round `i` contributes to each component: `left^c · right^(c⁻¹)`. */
  function RoundContribution<T, G, H>(gt: Monoid<T>, g1: Monoid<G>, g: GipaProof<T, G, H>, i: nat, c: Fr, cInv: Fr): (t: Tuz<T, G>)
    requires i < NumRounds(g)
  {
    var ab, zab, cc, zc := g.commsAB[i], g.zAB[i], g.commsC[i], g.zC[i];
    Tuz(gt.op(gt.scale(ab.left.t, c), gt.scale(ab.right.t, cInv)),
        gt.op(gt.scale(ab.left.u, c), gt.scale(ab.right.u, cInv)),
        gt.op(gt.scale(zab.left, c), gt.scale(zab.right, cInv)),
        gt.op(gt.scale(cc.left.t, c), gt.scale(cc.right.t, cInv)),
        gt.op(gt.scale(cc.left.u, c), gt.scale(cc.right.u, cInv)),
        g1.op(g1.scale(zc.left, c), g1.scale(zc.right, cInv)))
  }

  /** The product of the contributions of the first `k` rounds. */
  function Folded<T, G, H>(gt: Monoid<T>, g1: Monoid<G>, g: GipaProof<T, G, H>, ch: Challenges, k: nat): (t: Tuz<T, G>)
    requires k <= NumRounds(g) && k <= |ch.challenges| && k <= |ch.challengesInv|
  {
    if k == 0 then Identity(gt, g1)
    else Combine(gt, g1, Folded(gt, g1, g, ch, k - 1),
                 RoundContribution(gt, g1, g, k - 1, ch.challenges[k - 1], ch.challengesInv[k - 1]))
  }

  /** Folding one round's twelve operations from the identity puts two factors in each component. */
  lemma RoundOpsFold<T, G, H>(gt: Monoid<T>, g1: Monoid<G>, g: GipaProof<T, G, H>, i: nat, c: Fr, cInv: Fr)
    requires i < NumRounds(g)
    ensures
      var ab, zab, cc, zc := g.commsAB[i], g.zAB[i], g.commsC[i], g.zC[i];
      var id := gt.id;
      FoldOps(gt, g1, Identity(gt, g1), RoundOps(g, i, c, cInv))
      == Tuz(gt.op(gt.op(id, gt.scale(ab.left.t, c)), gt.scale(ab.right.t, cInv)),
             gt.op(gt.op(id, gt.scale(ab.left.u, c)), gt.scale(ab.right.u, cInv)),
             gt.op(gt.op(id, gt.scale(zab.left, c)), gt.scale(zab.right, cInv)),
             gt.op(gt.op(id, gt.scale(cc.left.t, c)), gt.scale(cc.right.t, cInv)),
             gt.op(gt.op(id, gt.scale(cc.left.u, c)), gt.scale(cc.right.u, cInv)),
             g1.op(g1.op(g1.id, g1.scale(zc.left, c)), g1.scale(zc.right, cInv)))
  {
    var ops := RoundOps(g, i, c, cInv);
    var id := Identity(gt, g1);
    assert ops[..0] == [] && ops[..12] == ops;
    FoldOpsPrefix(gt, g1, id, ops, 0);
    FoldOpsPrefix(gt, g1, id, ops, 1);
    FoldOpsPrefix(gt, g1, id, ops, 2);
    FoldOpsPrefix(gt, g1, id, ops, 3);
    FoldOpsPrefix(gt, g1, id, ops, 4);
    FoldOpsPrefix(gt, g1, id, ops, 5);
    FoldOpsPrefix(gt, g1, id, ops, 6);
    FoldOpsPrefix(gt, g1, id, ops, 7);
    FoldOpsPrefix(gt, g1, id, ops, 8);
    FoldOpsPrefix(gt, g1, id, ops, 9);
    FoldOpsPrefix(gt, g1, id, ops, 10);
    FoldOpsPrefix(gt, g1, id, ops, 11);
  }

  /** Folding one round's twelve operations yields exactly that round's contribution. */
  lemma RoundOpsContribution<T(!new), G(!new), H>(gt: Monoid<T>, g1: Monoid<G>, g: GipaProof<T, G, H>, i: nat, c: Fr, cInv: Fr)
    requires Laws(gt, g1)
    requires i < NumRounds(g)
    ensures FoldOps(gt, g1, Identity(gt, g1), RoundOps(g, i, c, cInv)) == RoundContribution(gt, g1, g, i, c, cInv)
  {
    RoundOpsFold(gt, g1, g, i, c, cInv);
    var ab, zab, cc, zc := g.commsAB[i], g.zAB[i], g.commsC[i], g.zC[i];
    OpIdentity(gt, gt.scale(ab.left.t, c)); OpIdentity(gt, gt.scale(ab.left.u, c));
    OpIdentity(gt, gt.scale(zab.left, c)); OpIdentity(gt, gt.scale(cc.left.t, c));
    OpIdentity(gt, gt.scale(cc.left.u, c)); OpIdentity(g1, g1.scale(zc.left, c));
  }

  /** Folding the operations of the first `k` rounds is the product of their contributions. */
  lemma {:induction false} AllOpsFolded<T(!new), G(!new), H>(gt: Monoid<T>, g1: Monoid<G>, g: GipaProof<T, G, H>, ch: Challenges, k: nat)
    requires Laws(gt, g1)
    requires k <= NumRounds(g) && k <= |ch.challenges| && k <= |ch.challengesInv|
    ensures FoldOps(gt, g1, Identity(gt, g1), AllOps(g, ch, k)) == Folded(gt, g1, g, ch, k)
  {
    if k > 0 {
      var c, cInv := ch.challenges[k - 1], ch.challengesInv[k - 1];
      var prev, round := AllOps(g, ch, k - 1), RoundOps(g, k - 1, c, cInv);
      assert AllOps(g, ch, k) == prev + round;
      AllOpsFolded(gt, g1, g, ch, k - 1);
      FoldOpsSplit(gt, g1, prev, round);
      RoundOpsContribution(gt, g1, g, k - 1, c, cInv);
      assert Folded(gt, g1, g, ch, k) == Combine(gt, g1, Folded(gt, g1, g, ch, k - 1), RoundContribution(gt, g1, g, k - 1, c, cInv));
    }
  }

  /** One step of the fold closure, applied in place to the accumulator. */
  method ApplyOp<T, G>(gt: Monoid<T>, g1: Monoid<G>, res: GipaTuz<T, G>, op: Op<T, G>)
    modifies res
    ensures res.Value() == Absorb(gt, g1, old(res.Value()), op)
  {
    match op
    case TAB(x, e) => res.tab := gt.op(res.tab, gt.scale(x, e));
    case UAB(x, e) => res.uab := gt.op(res.uab, gt.scale(x, e));
    case ZAB(x, e) => res.zab := gt.op(res.zab, gt.scale(x, e));
    case TC(x, e) => res.tc := gt.op(res.tc, gt.scale(x, e));
    case UC(x, e) => res.uc := gt.op(res.uc, gt.scale(x, e));
    case ZC(x, e) => res.zc := g1.op(res.zc, g1.scale(x, e));
  }

  /** The base commitments the proof carries, which seed `final_res`. */
  function BaseValues<T, G, H>(proof: AggregateProof<T, G, H>): (base: Tuz<T, G>)
  {
    Tuz(proof.comAB.t, proof.comAB.u, proof.ipAB, proof.comC.t, proof.comC.u, proof.aggC)
  }

  /** The fold of `gipa_verify_tipp_mipp`: absorb every round's operations into a default
      accumulator, then merge that into the base values. */
  method FoldCommitments<T(!new), G(!new), H>(gt: Monoid<T>, g1: Monoid<G>, g: GipaProof<T, G, H>, base: Tuz<T, G>, ch: Challenges)
    returns (res: Tuz<T, G>)
    requires Laws(gt, g1)
    requires |ch.challenges| == NumRounds(g) && |ch.challengesInv| == NumRounds(g)
    ensures res == Combine(gt, g1, base, Folded(gt, g1, g, ch, NumRounds(g)))
  {
    var ops := AllOps(g, ch, NumRounds(g));
    var acc := new GipaTuz<T, G>.Default(gt, g1);
    var k := 0;
    while k < |ops|
      invariant 0 <= k <= |ops|
      invariant acc.Value() == FoldOps(gt, g1, Identity(gt, g1), ops[..k])
    {
      ApplyOp(gt, g1, acc, ops[k]);
      assert ops[..k + 1][..k] == ops[..k];
      k := k + 1;
    }
    assert ops[..k] == ops;
    AllOpsFolded(gt, g1, g, ch, NumRounds(g));
    var finalRes := new GipaTuz<T, G>(base);
    finalRes.Merge(gt, g1, acc);
    res := finalRes.Value();
  }

  /** What `gipa_verify_tipp_mipp` returns: the folded state and both challenge lists,
      in the order they were generated. */
  datatype GipaOutput<T, G> = GipaOutput(finalRes: Tuz<T, G>, challenges: seq<Fr>, challengesInv: seq<Fr>)

  /** The result `gipa_verify_tipp_mipp` computes, or `None` where it panics. */
  function GipaResult<T, G, H>(gt: Monoid<T>, g1: Monoid<G>, proof: AggregateProof<T, G, H>, oracle: Oracle<T, G, H>)
    : (r: Option<GipaOutput<T, G>>)
  {
    var n := NumRounds(proof.gipa);
    match ChallengeChain(proof.gipa, oracle, n)
    case None => None
    case Some(ch) =>
      Some(GipaOutput(Combine(gt, g1, BaseValues(proof), Folded(gt, g1, proof.gipa, ch, n)),
                      ch.challenges, ch.challengesInv))
  }

  method GipaVerifyTippMipp<T(!new), G(!new), H>(gt: Monoid<T>, g1: Monoid<G>, proof: AggregateProof<T, G, H>, oracle: Oracle<T, G, H>)
    returns (out: Option<GipaOutput<T, G>>)
    requires Laws(gt, g1)
    ensures out == GipaResult(gt, g1, proof, oracle)
  {
    var chain := GenerateChallenges(proof.gipa, oracle);
    if chain.None? {
      return None;
    }
    var ch := chain.value;
    var finalRes := FoldCommitments(gt, g1, proof.gipa, BaseValues(proof), ch);
    return Some(GipaOutput(finalRes, ch.challenges, ch.challengesInv));
  }

  /** The folded state does not depend on the order the operations are absorbed in: any
      rearrangement of all rounds' operations, folded and merged into the base values, gives
      the result of `gipa_verify_tipp_mipp`. */
  lemma GipaFoldAnyOrder<T(!new), G(!new), H>(gt: Monoid<T>, g1: Monoid<G>, proof: AggregateProof<T, G, H>,
                                              oracle: Oracle<T, G, H>, ops: seq<Op<T, G>>)
    requires Laws(gt, g1)
    requires ChallengeChain(proof.gipa, oracle, NumRounds(proof.gipa)).Some?
    requires multiset(ops) ==
      multiset(AllOps(proof.gipa, ChallengeChain(proof.gipa, oracle, NumRounds(proof.gipa)).value, NumRounds(proof.gipa)))
    ensures var ch := ChallengeChain(proof.gipa, oracle, NumRounds(proof.gipa)).value;
      GipaResult(gt, g1, proof, oracle) ==
        Some(GipaOutput(Combine(gt, g1, BaseValues(proof), FoldOps(gt, g1, Identity(gt, g1), ops)), ch.challenges, ch.challengesInv))
  {
    var n := NumRounds(proof.gipa);
    var ch := ChallengeChain(proof.gipa, oracle, n).value;
    AllOpsFolded(gt, g1, proof.gipa, ch, n);
    FoldOpsPermutation(gt, g1, ops, AllOps(proof.gipa, ch, n));
  }
}
