/**
  Envoy's RBAC condition trees. Permissions and principals have the same shape and differ in their
  leaves.
 */
module Rbac {

  datatype Tree<+L> = Any | And(rules: seq<Tree<L>>) | Or(rules: seq<Tree<L>>) | Not(rule: Tree<L>) | Leaf(leaf: L)

  predicate Eval<L>(t: Tree<L>, sat: L -> bool) {
    match t
    case Any => true
    case And(rules) => forall i :: 0 <= i < |rules| ==> Eval(rules[i], sat)
    case Or(rules) => exists i :: 0 <= i < |rules| && Eval(rules[i], sat)
    case Not(rule) => !Eval(rule, sat)
    case Leaf(leaf) => sat(leaf)
  }

  /** Envoy refuses empty sets of rules. */
  predicate WellFormed<L>(t: Tree<L>) {
    match t
    case And(rules) => rules != [] && forall i :: 0 <= i < |rules| ==> WellFormed(rules[i])
    case Or(rules) => rules != [] && forall i :: 0 <= i < |rules| ==> WellFormed(rules[i])
    case Not(rule) => WellFormed(rule)
    case _ => true
  }

  predicate AllHold<L>(trees: seq<Tree<L>>, sat: L -> bool) {
    forall i :: 0 <= i < |trees| ==> Eval(trees[i], sat)
  }

  predicate SomeHolds<L>(trees: seq<Tree<L>>, sat: L -> bool) {
    exists i :: 0 <= i < |trees| && Eval(trees[i], sat)
  }

  predicate AllWellFormed<L>(trees: seq<Tree<L>>) {
    forall i :: 0 <= i < |trees| ==> WellFormed(trees[i])
  }

  /** A policy: some permission and some principal must hold. */
  datatype Policy<+P, +Q> = Policy(permissions: seq<Tree<P>>, principals: seq<Tree<Q>>)

  predicate PolicyMatches<P, Q>(policy: Policy<P, Q>, satP: P -> bool, satQ: Q -> bool) {
    SomeHolds(policy.permissions, satP) && SomeHolds(policy.principals, satQ)
  }

  lemma HoldsConcat<L>(a: seq<Tree<L>>, b: seq<Tree<L>>, sat: L -> bool)
    ensures AllHold(a + b, sat) <==> AllHold(a, sat) && AllHold(b, sat)
    ensures SomeHolds(a + b, sat) <==> SomeHolds(a, sat) || SomeHolds(b, sat)
    ensures AllWellFormed(a + b) <==> AllWellFormed(a) && AllWellFormed(b)
  {
    assert forall i :: 0 <= i < |a| ==> (a + b)[i] == a[i];
    assert forall i :: 0 <= i < |b| ==> (a + b)[|a| + i] == b[i];
  }
}
