/**
 * The pairing engine's groups, seen only through the operations the verifier
 * uses. The target group (`Fqk`) is written multiplicatively and G1 additively;
 * both are commutative monoids here, each with an exponentiation (for G1:
 * scalar multiplication) by field scalars whose arithmetic is not modelled.
 */
module Algebra {
  import opened Field

  /** `op` is the group law (`mul_assign` on `Fqk`, `add_assign` on G1), `id` its identity
      (`Fqk::one()`, `G1::zero()`), `scale` the exponentiation (`pow`, `mul_assign` by a scalar). */
  datatype Monoid<!G> = Monoid(op: (G, G) -> G, id: G, scale: (G, Fr) -> G)

  ghost predicate Associative<G>(m: Monoid<G>, x: G, y: G, z: G)
  {
    m.op(m.op(x, y), z) == m.op(x, m.op(y, z))
  }

  ghost predicate Commutative<G>(m: Monoid<G>, x: G, y: G)
  {
    m.op(x, y) == m.op(y, x)
  }

  ghost predicate LeftIdentity<G>(m: Monoid<G>, x: G)
  {
    m.op(m.id, x) == x
  }

  /** The laws hold for all elements. Each law is stated through its own predicate, so that
      a proof uses an instance only where it names one, through the lemmas below. */
  ghost predicate IsCommutativeMonoid<G(!new)>(m: Monoid<G>)
  {
    && (forall x, y, z :: Associative(m, x, y, z))
    && (forall x, y :: Commutative(m, x, y))
    && (forall x :: LeftIdentity(m, x))
  }

  lemma OpAssoc<G(!new)>(m: Monoid<G>, x: G, y: G, z: G)
    requires IsCommutativeMonoid(m)
    ensures m.op(m.op(x, y), z) == m.op(x, m.op(y, z))
  {
    assert Associative(m, x, y, z);
  }

  lemma OpComm<G(!new)>(m: Monoid<G>, x: G, y: G)
    requires IsCommutativeMonoid(m)
    ensures m.op(x, y) == m.op(y, x)
  {
    assert Commutative(m, x, y);
  }

  /** The identity is neutral on both sides. */
  lemma OpIdentity<G(!new)>(m: Monoid<G>, x: G)
    requires IsCommutativeMonoid(m)
    ensures m.op(m.id, x) == x && m.op(x, m.id) == x
  {
    assert LeftIdentity(m, x);
    assert Commutative(m, x, m.id);
  }
}

/**
 * The Fiat-Shamir transcript oracle (the `oracle!` macro): a deterministic
 * function of an ordered list of field and group elements. Its hashing and byte
 * encoding are not modelled; a verifier run receives it as a function.
 */
module Transcript {
  import opened Field

  /** One transcript operand: a scalar, a target-group element, a G1 element or a G2 element. */
  datatype Operand<T, G, H> = Scalar(s: Fr) | Target(t: T) | Source(g: G) | Twist(h: H)

  type Oracle<!T, !G, !H> = seq<Operand<T, G, H>> -> Fr
}
