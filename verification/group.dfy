/** `permutation_t` comes from a header that is not part of this model; all
    the code relies on is that it forms a group under `operator*`, with
    `neutral()` and `inv()`. The operations travel as a record and the group
    laws are a precondition of whoever uses them. */
module Group {

  datatype GroupOps<!G> = GroupOps(neutral: G, mul: (G, G) -> G, inv: G -> G)

  ghost predicate AssocAt<G>(ops: GroupOps<G>, a: G, b: G, c: G) {
    ops.mul(ops.mul(a, b), c) == ops.mul(a, ops.mul(b, c))
  }

  ghost predicate NeutralAt<G>(ops: GroupOps<G>, a: G) {
    ops.mul(ops.neutral, a) == a && ops.mul(a, ops.neutral) == a
  }

  ghost predicate InverseAt<G>(ops: GroupOps<G>, a: G) {
    ops.mul(ops.inv(a), a) == ops.neutral && ops.mul(a, ops.inv(a)) == ops.neutral
  }

  /** The group laws. Each law is stated through a predicate at a point, so
      that a proof brings in just the instances it names. */
  ghost predicate IsGroup<G(!new)>(ops: GroupOps<G>) {
    && (forall a, b, c :: AssocAt(ops, a, b, c))
    && (forall a :: NeutralAt(ops, a))
    && (forall a :: InverseAt(ops, a))
  }

  /** Dividing on the right: from r * s == p * t follows r * (s * t^-1) == p. */
  lemma RightDivide<G(!new)>(ops: GroupOps<G>, r: G, s: G, p: G, t: G)
    requires IsGroup(ops) && ops.mul(r, s) == ops.mul(p, t)
    ensures ops.mul(r, ops.mul(s, ops.inv(t))) == p
  {
    assert AssocAt(ops, r, s, ops.inv(t)) && AssocAt(ops, p, t, ops.inv(t));
    assert InverseAt(ops, t) && NeutralAt(ops, p);
  }

  /** Cancelling on the left: a * (a^-1 * b) == b. */
  lemma LeftCancel<G(!new)>(ops: GroupOps<G>, a: G, b: G)
    requires IsGroup(ops)
    ensures ops.mul(a, ops.mul(ops.inv(a), b)) == b
  {
    assert AssocAt(ops, a, ops.inv(a), b) && InverseAt(ops, a) && NeutralAt(ops, b);
  }
}
