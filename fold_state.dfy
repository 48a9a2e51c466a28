/**
 * `GipaTUZ`, the state the GIPA verifier folds the prover's per-round
 * commitments into: five target-group values combined by multiplication and
 * one G1 value combined by addition. The laws proved here are what make the
 * verifier's parallel fold-and-reduce independent of how the work is split and
 * in which order it is combined.
 */
module FoldState {
  import opened Field
  import opened Algebra

  /** The six components of `GipaTUZ`, as a value. */
  datatype Tuz<T, G> = Tuz(tab: T, uab: T, zab: T, tc: T, uc: T, zc: G)

  ghost predicate Laws<T(!new), G(!new)>(gt: Monoid<T>, g1: Monoid<G>)
  {
    IsCommutativeMonoid(gt) && IsCommutativeMonoid(g1)
  }

  /** `GipaTUZ::default`: every target-group component at one and `zc` at zero. */
  function Identity<T, G>(gt: Monoid<T>, g1: Monoid<G>): (id: Tuz<T, G>)
  {
    Tuz(gt.id, gt.id, gt.id, gt.id, gt.id, g1.id)
  }

  /** The value `GipaTUZ::merge` leaves in `x` when `y` is merged into it. */
  function Combine<T, G>(gt: Monoid<T>, g1: Monoid<G>, x: Tuz<T, G>, y: Tuz<T, G>): (z: Tuz<T, G>)
  {
    Tuz(gt.op(x.tab, y.tab), gt.op(x.uab, y.uab), gt.op(x.zab, y.zab),
        gt.op(x.tc, y.tc), gt.op(x.uc, y.uc), g1.op(x.zc, y.zc))
  }

  lemma CombineIdentity<T(!new), G(!new)>(gt: Monoid<T>, g1: Monoid<G>, x: Tuz<T, G>)
    requires Laws(gt, g1)
    ensures Combine(gt, g1, Identity(gt, g1), x) == x
    ensures Combine(gt, g1, x, Identity(gt, g1)) == x
  {
    OpIdentity(gt, x.tab); OpIdentity(gt, x.uab); OpIdentity(gt, x.zab);
    OpIdentity(gt, x.tc); OpIdentity(gt, x.uc); OpIdentity(g1, x.zc);
  }

  lemma CombineAssoc<T(!new), G(!new)>(gt: Monoid<T>, g1: Monoid<G>, x: Tuz<T, G>, y: Tuz<T, G>, z: Tuz<T, G>)
    requires Laws(gt, g1)
    ensures Combine(gt, g1, Combine(gt, g1, x, y), z) == Combine(gt, g1, x, Combine(gt, g1, y, z))
  {
    OpAssoc(gt, x.tab, y.tab, z.tab); OpAssoc(gt, x.uab, y.uab, z.uab); OpAssoc(gt, x.zab, y.zab, z.zab);
    OpAssoc(gt, x.tc, y.tc, z.tc); OpAssoc(gt, x.uc, y.uc, z.uc); OpAssoc(g1, x.zc, y.zc, z.zc);
  }

  lemma CombineComm<T(!new), G(!new)>(gt: Monoid<T>, g1: Monoid<G>, x: Tuz<T, G>, y: Tuz<T, G>)
    requires Laws(gt, g1)
    ensures Combine(gt, g1, x, y) == Combine(gt, g1, y, x)
  {
    OpComm(gt, x.tab, y.tab); OpComm(gt, x.uab, y.uab); OpComm(gt, x.zab, y.zab);
    OpComm(gt, x.tc, y.tc); OpComm(gt, x.uc, y.uc); OpComm(g1, x.zc, y.zc);
  }

  /** One operation of the fold: a component, the element to scale and the exponent to scale it by. */
  datatype Op<T, G> =
    | TAB(t: T, e: Fr)
    | UAB(t: T, e: Fr)
    | ZAB(t: T, e: Fr)
    | TC(t: T, e: Fr)
    | UC(t: T, e: Fr)
    | ZC(g: G, e: Fr)

  /** The fold closure: raise the operand to its exponent and multiply it into its component
      (for `zc`: multiply the G1 point by the scalar and add it). */
  function Absorb<T, G>(gt: Monoid<T>, g1: Monoid<G>, acc: Tuz<T, G>, op: Op<T, G>): (next: Tuz<T, G>)
  {
    match op
    case TAB(x, e) => acc.(tab := gt.op(acc.tab, gt.scale(x, e)))
    case UAB(x, e) => acc.(uab := gt.op(acc.uab, gt.scale(x, e)))
    case ZAB(x, e) => acc.(zab := gt.op(acc.zab, gt.scale(x, e)))
    case TC(x, e) => acc.(tc := gt.op(acc.tc, gt.scale(x, e)))
    case UC(x, e) => acc.(uc := gt.op(acc.uc, gt.scale(x, e)))
    case ZC(x, e) => acc.(zc := g1.op(acc.zc, g1.scale(x, e)))
  }

  /** Absorbing `ops` one after another, starting from `acc`. */
  function FoldOps<T, G>(gt: Monoid<T>, g1: Monoid<G>, acc: Tuz<T, G>, ops: seq<Op<T, G>>): (folded: Tuz<T, G>)
    decreases |ops|
  {
    if ops == [] then acc
    else Absorb(gt, g1, FoldOps(gt, g1, acc, ops[..|ops| - 1]), ops[|ops| - 1])
  }

  lemma FoldOpsPrefix<T, G>(gt: Monoid<T>, g1: Monoid<G>, acc: Tuz<T, G>, s: seq<Op<T, G>>, k: nat)
    requires k < |s|
    ensures FoldOps(gt, g1, acc, s[..k + 1]) == Absorb(gt, g1, FoldOps(gt, g1, acc, s[..k]), s[k])
  {
    assert s[..k + 1][..k] == s[..k];
  }

  /** Absorbing an operation is merging in the value it contributes on its own. */
  lemma AbsorbIsCombine<T(!new), G(!new)>(gt: Monoid<T>, g1: Monoid<G>, acc: Tuz<T, G>, op: Op<T, G>)
    requires Laws(gt, g1)
    ensures Absorb(gt, g1, acc, op) == Combine(gt, g1, acc, Absorb(gt, g1, Identity(gt, g1), op))
  {
    CombineIdentity(gt, g1, acc);
    match op
    case TAB(x, e) => OpIdentity(gt, gt.scale(x, e));
    case UAB(x, e) => OpIdentity(gt, gt.scale(x, e));
    case ZAB(x, e) => OpIdentity(gt, gt.scale(x, e));
    case TC(x, e) => OpIdentity(gt, gt.scale(x, e));
    case UC(x, e) => OpIdentity(gt, gt.scale(x, e));
    case ZC(x, e) => OpIdentity(g1, g1.scale(x, e));
  }

  lemma {:induction false} FoldOpsAppend<T, G>(gt: Monoid<T>, g1: Monoid<G>, acc: Tuz<T, G>, s: seq<Op<T, G>>, t: seq<Op<T, G>>)
    ensures FoldOps(gt, g1, acc, s + t) == FoldOps(gt, g1, FoldOps(gt, g1, acc, s), t)
    decreases |t|
  {
    if t == [] {
      assert s + t == s;
    } else {
      assert (s + t)[..|s + t| - 1] == s + t[..|t| - 1];
      FoldOpsAppend(gt, g1, acc, s, t[..|t| - 1]);
    }
  }

  /** Folding from any starting value is merging that value with the fold from the identity. */
  lemma {:induction false} FoldOpsFrom<T(!new), G(!new)>(gt: Monoid<T>, g1: Monoid<G>, acc: Tuz<T, G>, s: seq<Op<T, G>>)
    requires Laws(gt, g1)
    ensures FoldOps(gt, g1, acc, s) == Combine(gt, g1, acc, FoldOps(gt, g1, Identity(gt, g1), s))
    decreases |s|
  {
    var id := Identity(gt, g1);
    if s == [] {
      CombineIdentity(gt, g1, acc);
    } else {
      var init, x := s[..|s| - 1], s[|s| - 1];
      FoldOpsFrom(gt, g1, acc, init);
      var rest := FoldOps(gt, g1, id, init);
      var single := Absorb(gt, g1, id, x);
      calc {
        FoldOps(gt, g1, acc, s);
        Absorb(gt, g1, Combine(gt, g1, acc, rest), x);
        { AbsorbIsCombine(gt, g1, Combine(gt, g1, acc, rest), x); }
        Combine(gt, g1, Combine(gt, g1, acc, rest), single);
        { CombineAssoc(gt, g1, acc, rest, single); }
        Combine(gt, g1, acc, Combine(gt, g1, rest, single));
        { AbsorbIsCombine(gt, g1, rest, x); }
        Combine(gt, g1, acc, FoldOps(gt, g1, id, s));
      }
    }
  }

  /** Splitting the operations into two runs folded separately and merged gives the same value:
      the fold-then-reduce of the parallel iterator may cut the work anywhere. */
  lemma FoldOpsSplit<T(!new), G(!new)>(gt: Monoid<T>, g1: Monoid<G>, s: seq<Op<T, G>>, t: seq<Op<T, G>>)
    requires Laws(gt, g1)
    ensures FoldOps(gt, g1, Identity(gt, g1), s + t)
         == Combine(gt, g1, FoldOps(gt, g1, Identity(gt, g1), s), FoldOps(gt, g1, Identity(gt, g1), t))
  {
    var id := Identity(gt, g1);
    FoldOpsAppend(gt, g1, id, s, t);
    FoldOpsFrom(gt, g1, FoldOps(gt, g1, id, s), t);
  }

  /** Taking the same element out of two permutations of each other leaves two permutations. */
  lemma RemoveOne<A>(init: seq<A>, x: A, before: seq<A>, after: seq<A>)
    requires multiset(init + [x]) == multiset(before + [x] + after)
    ensures multiset(init) == multiset(before + after)
  {
    var m := multiset{x};
    calc {
      multiset(init);
      multiset(init) + m - m;
      multiset(init + [x]) - m;
      multiset(before + [x] + after) - m;
      multiset(before + after) + m - m;
      multiset(before + after);
    }
  }

  /** Moving one merged value to the end of a three-way merge. */
  lemma CombineRotate<T(!new), G(!new)>(gt: Monoid<T>, g1: Monoid<G>, x: Tuz<T, G>, y: Tuz<T, G>, z: Tuz<T, G>)
    requires Laws(gt, g1)
    ensures Combine(gt, g1, Combine(gt, g1, x, y), z) == Combine(gt, g1, Combine(gt, g1, x, z), y)
  {
    CombineAssoc(gt, g1, x, y, z);
    CombineComm(gt, g1, y, z);
    CombineAssoc(gt, g1, x, z, y);
  }

  /** The fold does not depend on the order of the operations. */
  lemma {:induction false} FoldOpsPermutation<T(!new), G(!new)>(gt: Monoid<T>, g1: Monoid<G>, s: seq<Op<T, G>>, t: seq<Op<T, G>>)
    requires Laws(gt, g1)
    requires multiset(s) == multiset(t)
    ensures FoldOps(gt, g1, Identity(gt, g1), s) == FoldOps(gt, g1, Identity(gt, g1), t)
    decreases |s|
  {
    var id := Identity(gt, g1);
    if s == [] {
      assert |t| == |multiset(t)| == 0;
    } else {
      var init, x := s[..|s| - 1], s[|s| - 1];
      assert s == init + [x];
      assert x in multiset(t);
      var j :| 0 <= j < |t| && t[j] == x;
      var before, after := t[..j], t[j + 1..];
      assert t == before + [x] + after;
      RemoveOne(init, x, before, after);
      FoldOpsPermutation(gt, g1, init, before + after);
      var single := FoldOps(gt, g1, id, [x]);
      var fb, fa := FoldOps(gt, g1, id, before), FoldOps(gt, g1, id, after);
      calc {
        FoldOps(gt, g1, id, t);
        { FoldOpsSplit(gt, g1, before + [x], after); FoldOpsSplit(gt, g1, before, [x]); }
        Combine(gt, g1, Combine(gt, g1, fb, single), fa);
        { CombineRotate(gt, g1, fb, single, fa); }
        Combine(gt, g1, Combine(gt, g1, fb, fa), single);
        { FoldOpsSplit(gt, g1, before, after); }
        Combine(gt, g1, FoldOps(gt, g1, id, before + after), single);
        Combine(gt, g1, FoldOps(gt, g1, id, init), single);
        { FoldOpsSplit(gt, g1, init, [x]); }
        FoldOps(gt, g1, id, s);
      }
    }
  }

  /** `GipaTUZ` as the source keeps it: a struct whose `merge` updates its six fields in place. */
  class GipaTuz<T, G> {
    var tab: T
    var uab: T
    var zab: T
    var tc: T
    var uc: T
    var zc: G

    function Value(): Tuz<T, G>
      reads this
    {
      Tuz(tab, uab, zab, tc, uc, zc)
    }

    /** `GipaTUZ::default()`. */
    constructor Default(gt: Monoid<T>, g1: Monoid<G>)
      ensures Value() == Identity(gt, g1)
    {
      tab, uab, zab, tc, uc := gt.id, gt.id, gt.id, gt.id, gt.id;
      zc := g1.id;
    }

    /** A `GipaTUZ { .. }` literal. */
    constructor (v: Tuz<T, G>)
      ensures Value() == v
    {
      tab, uab, zab, tc, uc, zc := v.tab, v.uab, v.zab, v.tc, v.uc, v.zc;
    }

    /** `GipaTUZ::merge`: multiply (add, for `zc`) each component of `other` into this one. */
    method Merge(gt: Monoid<T>, g1: Monoid<G>, other: GipaTuz<T, G>)
      requires other != this
      modifies this
      ensures Value() == Combine(gt, g1, old(Value()), other.Value())
    {
      tab := gt.op(tab, other.tab);
      uab := gt.op(uab, other.uab);
      zab := gt.op(zab, other.zab);
      tc := gt.op(tc, other.tc);
      uc := gt.op(uc, other.uc);
      zc := g1.op(zc, other.zc);
    }
  }
}
