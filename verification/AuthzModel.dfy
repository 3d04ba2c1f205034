/**
  The Dubbo authorization compiler: a policy rule becomes a model, lists of conditions on the request
  and on its source, and the model becomes an Envoy RBAC policy.

  The source has the permission and the principal half of the compiler twice; here each member is
  written once, for any kind of leaf `L` and any leaf generator.
 */
module AuthzModel {
  import opened Mesh
  import opened Rbac

  datatype Action = ALLOW | DENY | LOG

  datatype Generator = InterfaceGenerator | MethodGenerator | SrcNamespaceGenerator | SrcPrincipalGenerator

  datatype Rule = Rule(key: string, values: seq<string>, notValues: seq<string>, g: Generator)

  type Rules = seq<Rule>

  datatype Model = Model(permissions: seq<Rules>, principals: seq<Rules>)

  /** A leaf generator for one half of the policy; None is its error. */
  type LeafGen<!L> = (Generator, string) -> Option<Tree<L>>

  /** What a value of a generator's kind means, on some fixed request. */
  type Meaning = (Generator, string) -> bool

  // --- The generated trees ---

  /** The trees of the values that could be generated; an ALLOW policy stops at the first error. */
  function Collect<L>(g: Generator, values: seq<string>, leaf: LeafGen<L>, action: Action): Option<seq<Tree<L>>> {
    if values == [] then Some([])
    else
      var before, last := Collect(g, values[..|values| - 1], leaf, action), leaf(g, values[|values| - 1]);
      if before.None? then None
      else if last.Some? then Some(before.value + [last.value])
      else if action == ALLOW then None
      else before
  }

  function OneOf<L>(or: seq<Tree<L>>): seq<Tree<L>> {
    if or == [] then [] else [Or(or)]
  }

  function NoneOf<L>(or: seq<Tree<L>>): seq<Tree<L>> {
    if or == [] then [] else [Not(Or(or))]
  }

  function RuleTrees<L>(r: Rule, leaf: LeafGen<L>, action: Action): Option<seq<Tree<L>>> {
    var wanted, unwanted := Collect(r.g, r.values, leaf, action), Collect(r.g, r.notValues, leaf, action);
    if wanted.None? || unwanted.None? then None else Some(OneOf(wanted.value) + NoneOf(unwanted.value))
  }

  function RulesTrees<L>(rules: Rules, leaf: LeafGen<L>, action: Action): Option<seq<Tree<L>>> {
    if rules == [] then Some([])
    else
      var before, last := RulesTrees(rules[..|rules| - 1], leaf, action), RuleTrees(rules[|rules| - 1], leaf, action);
      if before.None? || last.None? then None else Some(before.value + last.value)
  }

  function Conjoin<L>(and: seq<Tree<L>>): Tree<L> {
    And(if and == [] then [Any] else and)
  }

  function HalfTrees<L>(half: seq<Rules>, leaf: LeafGen<L>, action: Action): Option<seq<Tree<L>>> {
    if half == [] then Some([])
    else
      var before, last := HalfTrees(half[..|half| - 1], leaf, action), RulesTrees(half[|half| - 1], leaf, action);
      if before.None? || last.None? then None else Some(before.value + [Conjoin(last.value)])
  }

  function PolicyOf<P, Q>(m: Model, leafP: LeafGen<P>, leafQ: LeafGen<Q>, action: Action): Option<Policy<P, Q>> {
    var permissions, principals := HalfTrees(m.permissions, leafP, action), HalfTrees(m.principals, leafQ, action);
    if permissions.None? || principals.None? || permissions.value == [] || principals.value == [] then None
    else Some(Policy(permissions.value, principals.value))
  }

  // --- The compiler's loops ---

  method CollectLeaves<L>(g: Generator, values: seq<string>, leaf: LeafGen<L>, action: Action)
    returns (or: Option<seq<Tree<L>>>)
    ensures or == Collect(g, values, leaf, action)
  {
    var trees := [];
    for i := 0 to |values|
      invariant Collect(g, values[..i], leaf, action) == Some(trees)
      invariant forall j :: 0 <= j < i && leaf(g, values[j]).None? ==> action != ALLOW
    {
      assert values[..i + 1][..i] == values[..i];
      var p := leaf(g, values[i]);
      if p.None? && action == ALLOW {
        CollectFails(g, values, leaf, i);
        return None;
      }
      if p.Some? {
        trees := trees + [p.value];
      }
    }
    assert values[..|values|] == values;
    return Some(trees);
  }

  lemma {:induction false} CollectFails<L>(g: Generator, values: seq<string>, leaf: LeafGen<L>, i: nat)
    requires i < |values| && leaf(g, values[i]).None?
    ensures Collect(g, values, leaf, ALLOW).None?
  {
    if i < |values| - 1 {
      CollectFails(g, values[..|values| - 1], leaf, i);
    }
  }

  /** `rule.permission` and `rule.principal`. */
  method GenerateRule<L>(r: Rule, leaf: LeafGen<L>, action: Action) returns (trees: Option<seq<Tree<L>>>)
    ensures trees == RuleTrees(r, leaf, action)
  {
    var result: seq<Tree<L>> := [];
    var or := CollectLeaves(r.g, r.values, leaf, action);
    if or.None? {
      return None;
    }
    if |or.value| > 0 {
      result := result + [Or(or.value)];
    }
    assert result == OneOf(or.value);
    ghost var wanted := result;
    or := CollectLeaves(r.g, r.notValues, leaf, action);
    if or.None? {
      return None;
    }
    if |or.value| > 0 {
      result := result + [Not(Or(or.value))];
    }
    assert result == wanted + NoneOf(or.value);
    return Some(result);
  }

  lemma {:induction false} RulesFail<L>(rules: Rules, leaf: LeafGen<L>, action: Action, i: nat)
    requires i < |rules| && RuleTrees(rules[i], leaf, action).None?
    ensures RulesTrees(rules, leaf, action).None?
  {
    if i < |rules| - 1 {
      RulesFail(rules[..|rules| - 1], leaf, action, i);
    }
  }

  /** `generatePermission` and `generatePrincipal`. */
  method GenerateRules<L>(rules: Rules, leaf: LeafGen<L>, action: Action) returns (tree: Option<Tree<L>>)
    ensures tree == if RulesTrees(rules, leaf, action).None? then None
                    else Some(Conjoin(RulesTrees(rules, leaf, action).value))
  {
    var and: seq<Tree<L>> := [];
    for i := 0 to |rules|
      invariant RulesTrees(rules[..i], leaf, action) == Some(and)
    {
      assert rules[..i + 1][..i] == rules[..i];
      var ret := GenerateRule(rules[i], leaf, action);
      if ret.None? {
        RulesFail(rules, leaf, action, i);
        return None;
      }
      and := and + ret.value;
    }
    assert rules[..|rules|] == rules;
    if |and| == 0 {
      and := and + [Any];
      assert and == [Any];
    }
    return Some(And(and));
  }

  lemma {:induction false} HalfFails<L>(half: seq<Rules>, leaf: LeafGen<L>, action: Action, i: nat)
    requires i < |half| && RulesTrees(half[i], leaf, action).None?
    ensures HalfTrees(half, leaf, action).None?
  {
    if i < |half| - 1 {
      HalfFails(half[..|half| - 1], leaf, action, i);
    }
  }

  method GenerateHalf<L>(half: seq<Rules>, leaf: LeafGen<L>, action: Action) returns (trees: Option<seq<Tree<L>>>)
    ensures trees == HalfTrees(half, leaf, action)
  {
    var result: seq<Tree<L>> := [];
    for i := 0 to |half|
      invariant HalfTrees(half[..i], leaf, action) == Some(result)
    {
      assert half[..i + 1][..i] == half[..i];
      var tree := GenerateRules(half[i], leaf, action);
      if tree.None? {
        HalfFails(half, leaf, action, i);
        return None;
      }
      result := result + [tree.value];
    }
    assert half[..|half|] == half;
    return Some(result);
  }

  method Generate<P, Q>(m: Model, leafP: LeafGen<P>, leafQ: LeafGen<Q>, action: Action)
    returns (policy: Option<Policy<P, Q>>)
    ensures policy == PolicyOf(m, leafP, leafQ, action)
  {
    var permissions := GenerateHalf(m.permissions, leafP, action);
    if permissions.None? || |permissions.value| == 0 {
      return None;
    }
    var principals := GenerateHalf(m.principals, leafQ, action);
    if principals.None? || |principals.value| == 0 {
      return None;
    }
    return Some(Policy(permissions.value, principals.value));
  }

  // --- What a model means ---

  predicate SomeValue(g: Generator, values: seq<string>, m: Meaning) {
    exists i :: 0 <= i < |values| && m(g, values[i])
  }

  /** Some value matches, or none is listed; and no notValue matches. */
  predicate RuleMeans(r: Rule, m: Meaning) {
    (r.values == [] || SomeValue(r.g, r.values, m)) && !SomeValue(r.g, r.notValues, m)
  }

  predicate RulesMean(rules: Rules, m: Meaning) {
    forall i :: 0 <= i < |rules| ==> RuleMeans(rules[i], m)
  }

  predicate HalfMeans(half: seq<Rules>, m: Meaning) {
    exists i :: 0 <= i < |half| && RulesMean(half[i], m)
  }

  /** A generated leaf holds exactly when its value matches. */
  ghost predicate Faithful<L>(leaf: LeafGen<L>, sat: L -> bool, m: Meaning) {
    forall g, v :: leaf(g, v).Some? ==> (Eval(leaf(g, v).value, sat) <==> m(g, v))
  }

  ghost predicate LeavesWellFormed<L>(leaf: LeafGen<L>) {
    forall g, v :: leaf(g, v).Some? ==> WellFormed(leaf(g, v).value)
  }

  /** What is left of a meaning when the values without a leaf are dropped. */
  function Supported<L>(leaf: LeafGen<L>, m: Meaning): Meaning {
    (g, v) => leaf(g, v).Some? && m(g, v)
  }

  predicate NoLeaf<L>(g: Generator, values: seq<string>, leaf: LeafGen<L>) {
    forall i :: 0 <= i < |values| ==> leaf(g, values[i]).None?
  }

  predicate AllLeaves<L>(g: Generator, values: seq<string>, leaf: LeafGen<L>) {
    forall i :: 0 <= i < |values| ==> leaf(g, values[i]).Some?
  }

  lemma LastValue<L>(g: Generator, init: seq<string>, last: string, leaf: LeafGen<L>, m: Meaning)
    ensures SomeValue(g, init + [last], m) <==> SomeValue(g, init, m) || m(g, last)
    ensures AllLeaves(g, init + [last], leaf) <==> AllLeaves(g, init, leaf) && leaf(g, last).Some?
    ensures NoLeaf(g, init + [last], leaf) <==> NoLeaf(g, init, leaf) && leaf(g, last).None?
  {
    var values := init + [last];
    assert values[|init|] == last && forall i :: 0 <= i < |init| ==> values[i] == init[i];
  }

  lemma {:induction false} CollectMeans<L>(g: Generator, values: seq<string>, leaf: LeafGen<L>, action: Action, sat: L -> bool, m: Meaning)
    requires Faithful(leaf, sat, m) && LeavesWellFormed(leaf)
    ensures var c := Collect(g, values, leaf, action);
            && (c.None? <==> action == ALLOW && !AllLeaves(g, values, leaf))
            && (c.Some? ==> && (c.value == [] <==> NoLeaf(g, values, leaf))
                            && (SomeHolds(c.value, sat) <==> SomeValue(g, values, Supported(leaf, m)))
                            && AllWellFormed(c.value))
  {
    if values != [] {
      var init, last := values[..|values| - 1], values[|values| - 1];
      CollectMeans(g, init, leaf, action, sat, m);
      assert values == init + [last];
      LastValue(g, init, last, leaf, Supported(leaf, m));
      var before := Collect(g, init, leaf, action);
      if before.Some? && leaf(g, last).Some? {
        var tree := leaf(g, last).value;
        assert [tree][0] == tree;
        HoldsConcat(before.value, [tree], sat);
        assert SomeHolds([tree], sat) <==> m(g, last);
      }
    }
  }

  lemma OneOfHolds<L>(or: seq<Tree<L>>, sat: L -> bool)
    ensures AllHold(OneOf(or), sat) <==> or == [] || SomeHolds(or, sat)
    ensures AllWellFormed(or) ==> AllWellFormed(OneOf(or))
  {
    var t := Or(or);
    assert Eval(t, sat) <==> SomeHolds(or, sat);
    assert [t][0] == t;
  }

  lemma NoneOfHolds<L>(or: seq<Tree<L>>, sat: L -> bool)
    ensures AllHold(NoneOf(or), sat) <==> !SomeHolds(or, sat)
    ensures AllWellFormed(or) ==> AllWellFormed(NoneOf(or))
  {
    var t := Or(or);
    assert Eval(t, sat) <==> SomeHolds(or, sat);
    assert Eval(Not(t), sat) <==> !Eval(t, sat);
    assert WellFormed(t) ==> WellFormed(Not(t));
    assert [Not(t)][0] == Not(t);
  }

  /** The trees of a rule hold exactly when some value that could be generated matches, or no value
      could be, and no notValue that could be generated matches. */
  lemma RuleTreesMean<L>(r: Rule, leaf: LeafGen<L>, action: Action, sat: L -> bool, m: Meaning)
    requires Faithful(leaf, sat, m) && LeavesWellFormed(leaf)
    ensures var t := RuleTrees(r, leaf, action);
            && (t.None? <==> action == ALLOW && !(AllLeaves(r.g, r.values, leaf) && AllLeaves(r.g, r.notValues, leaf)))
            && (t.Some? ==>
                  && (AllHold(t.value, sat) <==>
                        && (NoLeaf(r.g, r.values, leaf) || SomeValue(r.g, r.values, Supported(leaf, m)))
                        && !SomeValue(r.g, r.notValues, Supported(leaf, m)))
                  && AllWellFormed(t.value))
  {
    CollectMeans(r.g, r.values, leaf, action, sat, m);
    CollectMeans(r.g, r.notValues, leaf, action, sat, m);
    var wanted, unwanted := Collect(r.g, r.values, leaf, action), Collect(r.g, r.notValues, leaf, action);
    if wanted.Some? && unwanted.Some? {
      var a, b := OneOf(wanted.value), NoneOf(unwanted.value);
      HoldsConcat(a, b, sat);
      OneOfHolds(wanted.value, sat);
      NoneOfHolds(unwanted.value, sat);
    }
  }

  predicate RuleLeaves<L>(r: Rule, leaf: LeafGen<L>) {
    AllLeaves(r.g, r.values, leaf) && AllLeaves(r.g, r.notValues, leaf)
  }

  /** When every value has a leaf, the trees say exactly what the rule means. */
  lemma ExactRule<L>(r: Rule, leaf: LeafGen<L>, action: Action, sat: L -> bool, m: Meaning)
    requires Faithful(leaf, sat, m) && LeavesWellFormed(leaf) && RuleLeaves(r, leaf)
    ensures RuleTrees(r, leaf, action).Some?
    ensures AllHold(RuleTrees(r, leaf, action).value, sat) <==> RuleMeans(r, m)
  {
    RuleTreesMean(r, leaf, action, sat, m);
  }

  ghost predicate Supports<L>(leaf: LeafGen<L>, g: Generator) {
    forall v :: leaf(g, v).Some?
  }

  ghost predicate Ignores<L>(leaf: LeafGen<L>, g: Generator) {
    forall v :: leaf(g, v).None?
  }

  /** On this half every generator either always succeeds or always fails. */
  ghost predicate Uniform<L>(leaf: LeafGen<L>) {
    forall g :: Supports(leaf, g) || Ignores(leaf, g)
  }

  /** With such generators, a DENY or LOG rule is translated to something that holds whenever the rule
      does. */
  lemma WiderRule<L>(r: Rule, leaf: LeafGen<L>, action: Action, sat: L -> bool, m: Meaning)
    requires Faithful(leaf, sat, m) && LeavesWellFormed(leaf) && Uniform(leaf) && action != ALLOW
    ensures RuleTrees(r, leaf, action).Some?
    ensures RuleMeans(r, m) ==> AllHold(RuleTrees(r, leaf, action).value, sat)
  {
    RuleTreesMean(r, leaf, action, sat, m);
    assert Supports(leaf, r.g) || Ignores(leaf, r.g);
    if RuleMeans(r, m) && r.values != [] {
      var i :| 0 <= i < |r.values| && m(r.g, r.values[i]);
      assert Supported(leaf, m)(r.g, r.values[i]) || NoLeaf(r.g, r.values, leaf);
    }
  }

  /** The relation between a rule's trees and its meaning that carries over to whole policies. */
  datatype Claim = Same | Wider

  ghost predicate Relates(claim: Claim, tree: bool, meaning: bool) {
    if claim == Same then tree <==> meaning else meaning ==> tree
  }

  ghost predicate RuleClaim<L>(claim: Claim, r: Rule, leaf: LeafGen<L>, action: Action, sat: L -> bool, m: Meaning) {
    && RuleTrees(r, leaf, action).Some?
    && AllWellFormed(RuleTrees(r, leaf, action).value)
    && Relates(claim, AllHold(RuleTrees(r, leaf, action).value, sat), RuleMeans(r, m))
  }

  ghost predicate RulesClaim<L>(claim: Claim, rules: Rules, leaf: LeafGen<L>, action: Action, sat: L -> bool, m: Meaning) {
    && RulesTrees(rules, leaf, action).Some?
    && AllWellFormed(RulesTrees(rules, leaf, action).value)
    && Relates(claim, AllHold(RulesTrees(rules, leaf, action).value, sat), RulesMean(rules, m))
  }

  ghost predicate HalfClaim<L>(claim: Claim, half: seq<Rules>, leaf: LeafGen<L>, action: Action, sat: L -> bool, m: Meaning) {
    && HalfTrees(half, leaf, action).Some?
    && |HalfTrees(half, leaf, action).value| == |half|
    && AllWellFormed(HalfTrees(half, leaf, action).value)
    && Relates(claim, SomeHolds(HalfTrees(half, leaf, action).value, sat), HalfMeans(half, m))
  }

  lemma RulesMeanLast(init: Rules, last: Rule, m: Meaning)
    ensures RulesMean(init + [last], m) <==> RulesMean(init, m) && RuleMeans(last, m)
  {
    var rules := init + [last];
    assert rules[|init|] == last;
    assert forall i :: 0 <= i < |init| ==> rules[i] == init[i];
  }

  lemma RulesClaimLast<L>(claim: Claim, init: Rules, last: Rule, leaf: LeafGen<L>, action: Action, sat: L -> bool, m: Meaning)
    requires RulesClaim(claim, init, leaf, action, sat, m) && RuleClaim(claim, last, leaf, action, sat, m)
    ensures RulesClaim(claim, init + [last], leaf, action, sat, m)
  {
    var rules := init + [last];
    assert rules[..|rules| - 1] == init && rules[|rules| - 1] == last;
    HoldsConcat(RulesTrees(init, leaf, action).value, RuleTrees(last, leaf, action).value, sat);
    RulesMeanLast(init, last, m);
  }

  lemma {:induction false} RulesFollow<L>(claim: Claim, rules: Rules, leaf: LeafGen<L>, action: Action, sat: L -> bool, m: Meaning)
    requires forall i :: 0 <= i < |rules| ==> RuleClaim(claim, rules[i], leaf, action, sat, m)
    ensures RulesClaim(claim, rules, leaf, action, sat, m)
  {
    if rules != [] {
      var init, last := rules[..|rules| - 1], rules[|rules| - 1];
      assert rules == init + [last];
      RulesFollow(claim, init, leaf, action, sat, m);
      RulesClaimLast(claim, init, last, leaf, action, sat, m);
    }
  }

  lemma HalfMeansLast(init: seq<Rules>, last: Rules, m: Meaning)
    ensures HalfMeans(init + [last], m) <==> HalfMeans(init, m) || RulesMean(last, m)
  {
    var half := init + [last];
    assert half[|init|] == last;
    assert forall i :: 0 <= i < |init| ==> half[i] == init[i];
  }

  lemma AddAlternative<L>(claim: Claim, trees: seq<Tree<L>>, and: seq<Tree<L>>, sat: L -> bool, before: bool, last: bool)
    requires AllWellFormed(trees) && AllWellFormed(and)
    requires Relates(claim, SomeHolds(trees, sat), before) && Relates(claim, AllHold(and, sat), last)
    ensures AllWellFormed(trees + [Conjoin(and)])
    ensures Relates(claim, SomeHolds(trees + [Conjoin(and)], sat), before || last)
  {
    ConjoinHolds(and, sat);
    HoldsConcat(trees, [Conjoin(and)], sat);
  }

  lemma HalfClaimLast<L>(claim: Claim, init: seq<Rules>, last: Rules, leaf: LeafGen<L>, action: Action, sat: L -> bool, m: Meaning)
    requires HalfClaim(claim, init, leaf, action, sat, m) && RulesClaim(claim, last, leaf, action, sat, m)
    ensures HalfClaim(claim, init + [last], leaf, action, sat, m)
  {
    var half := init + [last];
    assert half[..|half| - 1] == init && half[|half| - 1] == last;
    HalfMeansLast(init, last, m);
    AddAlternative(claim, HalfTrees(init, leaf, action).value, RulesTrees(last, leaf, action).value, sat,
                   HalfMeans(init, m), RulesMean(last, m));
  }

  lemma {:induction false} HalfFollows<L>(claim: Claim, half: seq<Rules>, leaf: LeafGen<L>, action: Action, sat: L -> bool, m: Meaning)
    requires forall i :: 0 <= i < |half| ==> RulesClaim(claim, half[i], leaf, action, sat, m)
    ensures HalfClaim(claim, half, leaf, action, sat, m)
  {
    if half != [] {
      var init, last := half[..|half| - 1], half[|half| - 1];
      assert half == init + [last];
      HalfFollows(claim, init, leaf, action, sat, m);
      HalfClaimLast(claim, init, last, leaf, action, sat, m);
    }
  }

  lemma ConjoinHolds<L>(and: seq<Tree<L>>, sat: L -> bool)
    ensures SomeHolds([Conjoin(and)], sat) <==> AllHold(and, sat)
    ensures AllWellFormed(and) ==> AllWellFormed([Conjoin(and)])
  {
    var t := Conjoin(and);
    assert [t][0] == t;
    if and == [] {
      assert t.rules[0] == Any && |t.rules| == 1;
    }
    assert Eval(t, sat) <==> AllHold(and, sat);
  }
}
