/**
 * `ProvingAssignment`, the constraint-system recorder of the Nova prover: it
 * collects variable assignments and, for every constraint, the evaluations of
 * its A, B and C linear combinations. A density tracker is modelled by the
 * number of elements it tracks; a linear combination is an opaque value that
 * a caller-supplied `eval` maps to a scalar.
 */
module NovaProver {
  import opened Results

  /** `Variable(Index::Input(i))` and `Variable(Index::Aux(i))`. */
  datatype Variable = Input(index: nat) | Aux(index: nat)

  /** The eight fields of a recorder, as a value. */
  datatype Assignment<S> = Assignment(
    aAuxDensity: nat,
    bInputDensity: nat,
    bAuxDensity: nat,
    a: seq<S>,
    b: seq<S>,
    c: seq<S>,
    inputs: seq<S>,
    aux: seq<S>)

  /** The bookkeeping every recorder keeps: one A, B and C evaluation per constraint, the aux
      density trackers tracking every aux variable and the B input tracker every input. */
  ghost predicate Consistent<S>(s: Assignment<S>)
  {
    |s.a| == |s.b| == |s.c| &&
    s.aAuxDensity == |s.aux| && s.bAuxDensity == |s.aux| &&
    s.bInputDensity == |s.inputs|
  }

  /** A fresh recorder: nothing recorded, fresh density trackers. */
  function Empty<S>(): (s: Assignment<S>)
    ensures Consistent(s)
    ensures |s.a| == 0 && |s.inputs| == 0 && |s.aux| == 0
  {
    Assignment(0, 0, 0, [], [], [], [], [])
  }

  /** The state after a successful `alloc` of `v`. */
  function PushAux<S>(s: Assignment<S>, v: S): (r: Assignment<S>)
    ensures Consistent(s) ==> Consistent(r)
    ensures |r.aux| == |s.aux| + 1 && r.aux[|s.aux|] == v && r.aux[..|s.aux|] == s.aux
    ensures r.inputs == s.inputs && r.a == s.a && r.b == s.b && r.c == s.c
    ensures r.bInputDensity == s.bInputDensity
  {
    s.(aux := s.aux + [v], aAuxDensity := s.aAuxDensity + 1, bAuxDensity := s.bAuxDensity + 1)
  }

  /** The state after a successful `alloc_input` of `v`. */
  function PushInput<S>(s: Assignment<S>, v: S): (r: Assignment<S>)
    ensures Consistent(s) ==> Consistent(r)
    ensures |r.inputs| == |s.inputs| + 1 && r.inputs[|s.inputs|] == v && r.inputs[..|s.inputs|] == s.inputs
    ensures r.aux == s.aux && r.a == s.a && r.b == s.b && r.c == s.c
    ensures r.aAuxDensity == s.aAuxDensity && r.bAuxDensity == s.bAuxDensity
  {
    s.(inputs := s.inputs + [v], bInputDensity := s.bInputDensity + 1)
  }

  /** The state after `enforce` records the evaluations `x`, `y` and `z`. */
  function PushConstraint<S>(s: Assignment<S>, x: S, y: S, z: S): (r: Assignment<S>)
    ensures Consistent(s) ==> Consistent(r)
    ensures |r.a| == |s.a| + 1 && |r.b| == |s.b| + 1 && |r.c| == |s.c| + 1
    ensures r.a[|s.a|] == x && r.b[|s.b|] == y && r.c[|s.c|] == z
    ensures r.inputs == s.inputs && r.aux == s.aux
  {
    s.(a := s.a + [x], b := s.b + [y], c := s.c + [z])
  }

  /** The count of a density tracker extended with the input tracker of `m` elements: that
      tracker's first element, the one variable, is dropped. */
  function ExtendInputDensity(n: nat, m: nat): (r: nat)
    ensures m >= 1 ==> r + 1 == n + m
    ensures m == 0 ==> r == n
  {
    if m == 0 then n else n + m - 1
  }

  /** The state after `extend` by `o`: every vector and tracker concatenated, except that
      the first input of `o`, its one variable, is dropped. */
  function Concat<S>(s: Assignment<S>, o: Assignment<S>): (r: Assignment<S>)
    requires |o.inputs| >= 1
    ensures Consistent(s) && Consistent(o) ==> Consistent(r)
    ensures |r.inputs| + 1 == |s.inputs| + |o.inputs| && |r.aux| == |s.aux| + |o.aux|
    ensures |r.a| == |s.a| + |o.a| && |r.b| == |s.b| + |o.b| && |r.c| == |s.c| + |o.c|
    ensures r.inputs[..|s.inputs|] == s.inputs && r.inputs[|s.inputs|..] == o.inputs[1..]
    ensures r.aux[..|s.aux|] == s.aux && r.aux[|s.aux|..] == o.aux
  {
    Assignment(
      s.aAuxDensity + o.aAuxDensity,
      ExtendInputDensity(s.bInputDensity, o.bInputDensity),
      s.bAuxDensity + o.bAuxDensity,
      s.a + o.a, s.b + o.b, s.c + o.c,
      s.inputs + o.inputs[1..],
      s.aux + o.aux)
  }

  /** A recorder holding only its one variable is a unit for `extend` on the right. */
  lemma ConcatRightUnit<S>(s: Assignment<S>, one: S)
    ensures Concat(s, PushInput(Empty(), one)) == s
  {
    assert PushInput(Empty<S>(), one).inputs[1..] == [];
    assert s.a + [] == s.a && s.b + [] == s.b && s.c + [] == s.c && s.inputs + [] == s.inputs && s.aux + [] == s.aux;
  }

  /** ... and on the left, when its one variable is the first input of the other recorder. */
  lemma ConcatLeftUnit<S>(s: Assignment<S>)
    requires Consistent(s) && |s.inputs| >= 1
    ensures Concat(PushInput(Empty(), s.inputs[0]), s) == s
  {
    assert [s.inputs[0]] + s.inputs[1..] == s.inputs;
  }

  /** Extending in steps or all at once gives the same recorder. */
  lemma ConcatAssoc<S>(x: Assignment<S>, y: Assignment<S>, z: Assignment<S>)
    requires Consistent(y) && Consistent(z)
    requires |y.inputs| >= 1 && |z.inputs| >= 1
    ensures |Concat(y, z).inputs| >= 1
    ensures Concat(Concat(x, y), z) == Concat(x, Concat(y, z))
  {
    assert (y.inputs + z.inputs[1..])[1..] == y.inputs[1..] + z.inputs[1..];
    assert (x.inputs + y.inputs[1..]) + z.inputs[1..] == x.inputs + (y.inputs[1..] + z.inputs[1..]);
  }

  /** The state after `alloc` of each of `vs` in turn. */
  function AllocAll<S>(s: Assignment<S>, vs: seq<S>): (r: Assignment<S>)
    ensures |r.aux| == |s.aux| + |vs|
    decreases |vs|
  {
    if vs == [] then s else PushAux(AllocAll(s, vs[..|vs| - 1]), vs[|vs| - 1])
  }

  /** Allocating values one after another appends them in order and keeps the bookkeeping. */
  lemma {:induction false} AllocAllAppends<S>(s: Assignment<S>, vs: seq<S>)
    ensures AllocAll(s, vs).aux == s.aux + vs
    ensures Consistent(s) ==> Consistent(AllocAll(s, vs))
    decreases |vs|
  {
    if vs != [] {
      AllocAllAppends(s, vs[..|vs| - 1]);
      assert s.aux + vs[..|vs| - 1] + [vs[|vs| - 1]] == s.aux + vs;
    }
  }

  /** The recorder itself. */
  class ProvingAssignment<S(==)> {
    var aAuxDensity: nat
    var bInputDensity: nat
    var bAuxDensity: nat
    var a: seq<S>
    var b: seq<S>
    var c: seq<S>
    var inputAssignment: seq<S>
    var auxAssignment: seq<S>

    function State(): Assignment<S>
      reads this
    {
      Assignment(aAuxDensity, bInputDensity, bAuxDensity, a, b, c, inputAssignment, auxAssignment)
    }

    ghost predicate Valid()
      reads this
    {
      Consistent(State())
    }

    /** `new()`. */
    constructor New()
      ensures State() == Empty()
      ensures Valid()
    {
      aAuxDensity, bInputDensity, bAuxDensity := 0, 0, 0;
      a, b, c := [], [], [];
      inputAssignment, auxAssignment := [], [];
    }

    /** `alloc`: `value` is what the closure `f` returned. An error is passed on before anything
        is recorded; a value is appended to the aux assignment and named by its index. */
    method Alloc<E>(value: Result<S, E>) returns (res: Result<Variable, E>)
      modifies this
      ensures value.Err? ==> res == Err(value.error) && State() == old(State())
      ensures value.Ok? ==> State() == PushAux(old(State()), value.value)
      ensures value.Ok? ==> res == Ok(Aux(|auxAssignment| - 1)) && auxAssignment[|auxAssignment| - 1] == value.value
      ensures old(Valid()) ==> Valid()
    {
      if value.Err? {
        return Err(value.error);
      }
      auxAssignment := auxAssignment + [value.value];
      aAuxDensity := aAuxDensity + 1;
      bAuxDensity := bAuxDensity + 1;
      return Ok(Aux(|auxAssignment| - 1));
    }

    /** `alloc_input`: like `alloc`, on the input assignment and the B input tracker. */
    method AllocInput<E>(value: Result<S, E>) returns (res: Result<Variable, E>)
      modifies this
      ensures value.Err? ==> res == Err(value.error) && State() == old(State())
      ensures value.Ok? ==> State() == PushInput(old(State()), value.value)
      ensures value.Ok? ==> res == Ok(Input(|inputAssignment| - 1)) && inputAssignment[|inputAssignment| - 1] == value.value
      ensures old(Valid()) ==> Valid()
    {
      if value.Err? {
        return Err(value.error);
      }
      inputAssignment := inputAssignment + [value.value];
      bInputDensity := bInputDensity + 1;
      return Ok(Input(|inputAssignment| - 1));
    }

    /** `enforce`: build the three linear combinations from zero with the caller's closures,
        evaluate each against the current assignments and record the results. */
    method Enforce<L>(zero: L, la: L -> L, lb: L -> L, lc: L -> L, eval: (L, seq<S>, seq<S>) -> S)
      modifies this
      ensures State() == PushConstraint(old(State()),
                                        eval(la(zero), old(inputAssignment), old(auxAssignment)),
                                        eval(lb(zero), old(inputAssignment), old(auxAssignment)),
                                        eval(lc(zero), old(inputAssignment), old(auxAssignment)))
      ensures old(Valid()) ==> Valid()
    {
      var x := la(zero);
      var y := lb(zero);
      var z := lc(zero);
      var aRes := eval(x, inputAssignment, auxAssignment);
      var bRes := eval(y, inputAssignment, auxAssignment);
      var cRes := eval(z, inputAssignment, auxAssignment);
      a := a + [aRes];
      b := b + [bRes];
      c := c + [cRes];
    }

    /** `push_namespace`: namespaces are not recorded. */
    method PushNamespace<N>(name: N)
      modifies this
      ensures State() == old(State())
    {
    }

    /** `pop_namespace`: namespaces are not recorded. */
    method PopNamespace()
      modifies this
      ensures State() == old(State())
    {
    }

    /** `get_root`: the recorder is its own root. */
    method GetRoot() returns (root: ProvingAssignment<S>)
      ensures root == this
    {
      return this;
    }

    /** `is_extensible`: a recorder can always be extended. */
    static function IsExtensible(): (r: bool)
      ensures r
    {
      true
    }

    /** `extend`: append everything `other` recorded, without its first input. */
    method Extend(other: ProvingAssignment<S>)
      requires other != this
      requires |other.inputAssignment| >= 1
      modifies this
      ensures State() == Concat(old(State()), other.State())
      ensures old(Valid()) && other.Valid() ==> Valid()
    {
      aAuxDensity := aAuxDensity + other.aAuxDensity;
      bInputDensity := ExtendInputDensity(bInputDensity, other.bInputDensity);
      bAuxDensity := bAuxDensity + other.bAuxDensity;
      a := a + other.a;
      b := b + other.b;
      c := c + other.c;
      inputAssignment := inputAssignment + other.inputAssignment[1..];
      auxAssignment := auxAssignment + other.auxAssignment;
    }

    /** `PartialEq::eq`: two recorders are equal when all eight fields are. */
    function Eq(other: ProvingAssignment<S>): (r: bool)
      reads this, other
      ensures r <==> State() == other.State()
    {
      aAuxDensity == other.aAuxDensity && bInputDensity == other.bInputDensity &&
      bAuxDensity == other.bAuxDensity && a == other.a && b == other.b && c == other.c &&
      inputAssignment == other.inputAssignment && auxAssignment == other.auxAssignment
    }
  }

  /** Equality of recorders is an equivalence. */
  lemma EqEquivalence<S>(x: ProvingAssignment<S>, y: ProvingAssignment<S>, z: ProvingAssignment<S>)
    ensures x.Eq(x)
    ensures x.Eq(y) ==> y.Eq(x)
    ensures x.Eq(y) && y.Eq(z) ==> x.Eq(z)
  {
  }
}
