/**
  What the compiled Dubbo authorization policy means: the theorems about New and Generate.
 */
module AuthzPolicy {
  import opened Mesh
  import opened Rbac
  import opened AuthzModel

  // --- The policy language ---

  datatype Source = Source(principals: seq<string>, notPrincipals: seq<string>, namespaces: seq<string>, notNamespaces: seq<string>)

  datatype Operation = Operation(interfaces: seq<string>, notInterfaces: seq<string>, methods: seq<string>, notMethods: seq<string>)

  /** `from` and `to` entries without a source or an operation are allowed. */
  datatype PolicyRule = PolicyRule(from: seq<Option<Source>>, to: seq<Option<Operation>>)

  /** Which values match a request, for each kind of condition. */
  datatype Says = Says(principal: string -> bool, namespace: string -> bool, interface: string -> bool, method_: string -> bool)

  predicate Lists(values: seq<string>, says: string -> bool) {
    exists i :: 0 <= i < |values| && says(values[i])
  }

  /** Some value matches or none is listed, and no notValue matches. */
  predicate Holds(values: seq<string>, notValues: seq<string>, says: string -> bool) {
    (values == [] || Lists(values, says)) && !Lists(notValues, says)
  }

  predicate SourceHolds(source: Option<Source>, says: Says) {
    source.Some? ==>
      && Holds(source.value.principals, source.value.notPrincipals, says.principal)
      && Holds(source.value.namespaces, source.value.notNamespaces, says.namespace)
  }

  predicate OperationHolds(operation: Option<Operation>, says: Says) {
    operation.Some? ==>
      && Holds(operation.value.interfaces, operation.value.notInterfaces, says.interface)
      && Holds(operation.value.methods, operation.value.notMethods, says.method_)
  }

  /** Some source or none given, and some operation or none given. */
  predicate RuleHolds(r: PolicyRule, says: Says) {
    && (r.from == [] || exists i :: 0 <= i < |r.from| && SourceHolds(r.from[i], says))
    && (r.to == [] || exists i :: 0 <= i < |r.to| && OperationHolds(r.to[i], says))
  }

  // --- New ---

  function Inserted(rules: Rules, g: Generator, key: string, values: seq<string>, notValues: seq<string>): Rules {
    if values == [] && notValues == [] then rules else [Rule(key, values, notValues, g)] + rules
  }

  function SourceRules(source: Option<Source>): Rules {
    if source.None? then []
    else
      var s := source.value;
      Inserted(Inserted([], SrcNamespaceGenerator, "source.namespace", s.namespaces, s.notNamespaces),
               SrcPrincipalGenerator, "source.principal", s.principals, s.notPrincipals)
  }

  function OperationRules(operation: Option<Operation>): Rules {
    if operation.None? then []
    else
      var o := operation.value;
      Inserted(Inserted([], InterfaceGenerator, "dubboInterface", o.interfaces, o.notInterfaces),
               MethodGenerator, "dubboMethod", o.methods, o.notMethods)
  }

  function ModelOf(r: PolicyRule): Model {
    Model(if r.to == [] then [[]] else seq(|r.to|, i requires 0 <= i < |r.to| => OperationRules(r.to[i])),
          if r.from == [] then [[]] else seq(|r.from|, i requires 0 <= i < |r.from| => SourceRules(r.from[i])))
  }

  class RuleList {
    var rules: Rules

    constructor Copy(rules: Rules)
      ensures this.rules == rules
    {
      this.rules := rules;
    }

    method InsertFront(g: Generator, key: string, values: seq<string>, notValues: seq<string>)
      modifies this
      ensures rules == Inserted(old(rules), g, key, values, notValues)
    {
      if |values| == 0 && |notValues| == 0 {
        return;
      }
      rules := [Rule(key, values, notValues, g)] + rules;
    }
  }

  method New(r: PolicyRule) returns (m: Model)
    ensures m == ModelOf(r)
  {
    var principals: seq<Rules> := [];
    for i := 0 to |r.from|
      invariant principals == seq(i, j requires 0 <= j < i => SourceRules(r.from[j]))
    {
      var merged := new RuleList.Copy([]);
      if r.from[i].Some? {
        var s := r.from[i].value;
        merged.InsertFront(SrcNamespaceGenerator, "source.namespace", s.namespaces, s.notNamespaces);
        merged.InsertFront(SrcPrincipalGenerator, "source.principal", s.principals, s.notPrincipals);
      }
      principals := principals + [merged.rules];
    }
    if |r.from| == 0 {
      principals := principals + [[]];
    }
    var permissions: seq<Rules> := [];
    for i := 0 to |r.to|
      invariant permissions == seq(i, j requires 0 <= j < i => OperationRules(r.to[j]))
    {
      var merged := new RuleList.Copy([]);
      if r.to[i].Some? {
        var o := r.to[i].value;
        merged.InsertFront(InterfaceGenerator, "dubboInterface", o.interfaces, o.notInterfaces);
        merged.InsertFront(MethodGenerator, "dubboMethod", o.methods, o.notMethods);
      }
      permissions := permissions + [merged.rules];
    }
    if |r.to| == 0 {
      permissions := permissions + [[]];
    }
    m := Model(permissions, principals);
  }

  // --- Leaves and requests ---

  const RBAC_FILTER := "envoy.filters.dubbo.rbac"

  datatype MetadataMatcher<+M> = MetadataMatcher(filter: string, key: string, value: M)

  datatype Authenticated<+M> = Authenticated(principalName: M)

  /** How string matchers are generated for each kind of value, and when they accept a string. */
  datatype Matchers<!M> = Matchers(
    value: string -> M,
    namespace: string -> M,
    principal: string -> M,
    accepts: (M, string) -> bool)

  /** The permission half of the four generators. */
  function PermissionLeaf<M>(ms: Matchers<M>): LeafGen<MetadataMatcher<M>> {
    (g: Generator, value: string) =>
      match g
      case InterfaceGenerator => Some(Leaf(MetadataMatcher(RBAC_FILTER, "service", ms.value(value))))
      case MethodGenerator => Some(Leaf(MetadataMatcher(RBAC_FILTER, "method", ms.value(value))))
      case _ => None
  }

  /** The principal half of the four generators. */
  function PrincipalLeaf<M>(ms: Matchers<M>): LeafGen<Authenticated<M>> {
    (g: Generator, value: string) =>
      match g
      case SrcNamespaceGenerator => Some(Leaf(Authenticated(ms.namespace(value))))
      case SrcPrincipalGenerator => Some(Leaf(Authenticated(ms.principal(value))))
      case _ => None
  }

  /** A request: the peer's identity, if it is authenticated, and the metadata of the RBAC filter. */
  datatype Request = Request(identity: Option<string>, metadata: map<string, string>)

  function MetadataSat<M>(ms: Matchers<M>, req: Request): MetadataMatcher<M> -> bool {
    (l: MetadataMatcher<M>) => l.filter == RBAC_FILTER && l.key in req.metadata && ms.accepts(l.value, req.metadata[l.key])
  }

  function IdentitySat<M>(ms: Matchers<M>, req: Request): Authenticated<M> -> bool {
    (l: Authenticated<M>) => req.identity.Some? && ms.accepts(l.principalName, req.identity.value)
  }

  /** Which values match the request, by the generated matchers. */
  function MatchersSay<M>(ms: Matchers<M>, req: Request): Says {
    Says(v => req.identity.Some? && ms.accepts(ms.principal(v), req.identity.value),
         v => req.identity.Some? && ms.accepts(ms.namespace(v), req.identity.value),
         v => "service" in req.metadata && ms.accepts(ms.value(v), req.metadata["service"]),
         v => "method" in req.metadata && ms.accepts(ms.value(v), req.metadata["method"]))
  }

  function MeaningOf(says: Says): Meaning {
    (g: Generator, v: string) =>
      match g
      case InterfaceGenerator => says.interface(v)
      case MethodGenerator => says.method_(v)
      case SrcNamespaceGenerator => says.namespace(v)
      case SrcPrincipalGenerator => says.principal(v)
  }

  // --- Correctness of the compiler ---

  lemma RulesOfSource(source: Option<Source>, says: Says)
    ensures RulesMean(SourceRules(source), MeaningOf(says)) <==> SourceHolds(source, says)
    ensures forall r :: r in SourceRules(source) ==> r.g.SrcNamespaceGenerator? || r.g.SrcPrincipalGenerator?
  {
    if source.Some? {
      var s, m := source.value, MeaningOf(says);
      var inner := Inserted([], SrcNamespaceGenerator, "source.namespace", s.namespaces, s.notNamespaces);
      InsertedMeans([], SrcNamespaceGenerator, "source.namespace", s.namespaces, s.notNamespaces, says.namespace, says);
      InsertedMeans(inner, SrcPrincipalGenerator, "source.principal", s.principals, s.notPrincipals, says.principal, says);
    }
  }

  lemma RulesOfOperation(operation: Option<Operation>, says: Says)
    ensures RulesMean(OperationRules(operation), MeaningOf(says)) <==> OperationHolds(operation, says)
    ensures forall r :: r in OperationRules(operation) ==> r.g.InterfaceGenerator? || r.g.MethodGenerator?
  {
    if operation.Some? {
      var o, m := operation.value, MeaningOf(says);
      var inner := Inserted([], InterfaceGenerator, "dubboInterface", o.interfaces, o.notInterfaces);
      InsertedMeans([], InterfaceGenerator, "dubboInterface", o.interfaces, o.notInterfaces, says.interface, says);
      InsertedMeans(inner, MethodGenerator, "dubboMethod", o.methods, o.notMethods, says.method_, says);
    }
  }

  lemma InsertedMeans(rules: Rules, g: Generator, key: string, values: seq<string>, notValues: seq<string>, of: string -> bool, says: Says)
    requires forall v :: of(v) == MeaningOf(says)(g, v)
    ensures RulesMean(Inserted(rules, g, key, values, notValues), MeaningOf(says)) <==>
            RulesMean(rules, MeaningOf(says)) && Holds(values, notValues, of)
  {
    var m, r := MeaningOf(says), Rule(key, values, notValues, g);
    assert Lists(values, of) <==> SomeValue(g, values, m);
    assert Lists(notValues, of) <==> SomeValue(g, notValues, m);
    assert RuleMeans(r, m) <==> Holds(values, notValues, of);
    var inserted := [r] + rules;
    assert inserted[0] == r && forall i :: 0 <= i < |rules| ==> inserted[i + 1] == rules[i];
    assert RulesMean(inserted, m) <==> RuleMeans(r, m) && RulesMean(rules, m);
  }

  /** The model means what the rule says. */
  lemma ModelMeansRule(r: PolicyRule, says: Says)
    ensures HalfMeans(ModelOf(r).permissions, MeaningOf(says)) && HalfMeans(ModelOf(r).principals, MeaningOf(says)) <==> RuleHolds(r, says)
  {
    var m, p, q := MeaningOf(says), ModelOf(r).permissions, ModelOf(r).principals;
    forall i | 0 <= i < |r.from| ensures RulesMean(SourceRules(r.from[i]), m) <==> SourceHolds(r.from[i], says) {
      RulesOfSource(r.from[i], says);
    }
    forall i | 0 <= i < |r.to| ensures RulesMean(OperationRules(r.to[i]), m) <==> OperationHolds(r.to[i], says) {
      RulesOfOperation(r.to[i], says);
    }
    assert r.from == [] ==> RulesMean(q[0], m);
    assert r.to == [] ==> RulesMean(p[0], m);
    assert r.from != [] ==> |q| == |r.from| && forall i :: 0 <= i < |q| ==> q[i] == SourceRules(r.from[i]);
    assert r.to != [] ==> |p| == |r.to| && forall i :: 0 <= i < |p| ==> p[i] == OperationRules(r.to[i]);
  }

  lemma HalfIsExact<L>(half: seq<Rules>, leaf: LeafGen<L>, action: Action, sat: L -> bool, m: Meaning)
    requires Faithful(leaf, sat, m) && LeavesWellFormed(leaf)
    requires forall i, j :: 0 <= i < |half| && 0 <= j < |half[i]| ==> RuleLeaves(half[i][j], leaf)
    ensures HalfClaim(Same, half, leaf, action, sat, m)
  {
    forall i | 0 <= i < |half|
      ensures RulesClaim(Same, half[i], leaf, action, sat, m)
    {
      forall j | 0 <= j < |half[i]|
        ensures RuleClaim(Same, half[i][j], leaf, action, sat, m)
      {
        RuleTreesMean(half[i][j], leaf, action, sat, m);
        ExactRule(half[i][j], leaf, action, sat, m);
      }
      RulesFollow(Same, half[i], leaf, action, sat, m);
    }
    HalfFollows(Same, half, leaf, action, sat, m);
  }

  lemma LeavesAreFaithful<M>(ms: Matchers<M>, req: Request)
    ensures var m := MeaningOf(MatchersSay(ms, req));
            && Faithful(PermissionLeaf(ms), MetadataSat(ms, req), m) && LeavesWellFormed(PermissionLeaf(ms))
            && Faithful(PrincipalLeaf(ms), IdentitySat(ms, req), m) && LeavesWellFormed(PrincipalLeaf(ms))
  {
  }

  /** New puts every condition on the half that supports it. */
  lemma NewUsesSupported<M>(r: PolicyRule, ms: Matchers<M>)
    ensures forall i, j :: 0 <= i < |ModelOf(r).permissions| && 0 <= j < |ModelOf(r).permissions[i]| ==> RuleLeaves(ModelOf(r).permissions[i][j], PermissionLeaf(ms))
    ensures forall i, j :: 0 <= i < |ModelOf(r).principals| && 0 <= j < |ModelOf(r).principals[i]| ==> RuleLeaves(ModelOf(r).principals[i][j], PrincipalLeaf(ms))
  {
    var p, q := ModelOf(r).permissions, ModelOf(r).principals;
    forall i, j | 0 <= i < |p| && 0 <= j < |p[i]|
      ensures RuleLeaves(p[i][j], PermissionLeaf(ms))
    {
      assert p[i] == OperationRules(r.to[i]);
    }
    forall i, j | 0 <= i < |q| && 0 <= j < |q[i]|
      ensures RuleLeaves(q[i][j], PrincipalLeaf(ms))
    {
      assert q[i] == SourceRules(r.from[i]);
    }
  }

  /** For every rule, every request, every way of matching strings and either action: generation
      succeeds, Envoy accepts the policy, and the policy matches the request exactly when the rule
      holds of it. */
  lemma {:induction false} CompilerIsCorrect<M>(r: PolicyRule, ms: Matchers<M>, req: Request, action: Action)
    ensures var policy := PolicyOf(ModelOf(r), PermissionLeaf(ms), PrincipalLeaf(ms), action);
            && policy.Some?
            && policy.value.permissions != [] && policy.value.principals != []
            && AllWellFormed(policy.value.permissions) && AllWellFormed(policy.value.principals)
            && (PolicyMatches(policy.value, MetadataSat(ms, req), IdentitySat(ms, req)) <==> RuleHolds(r, MatchersSay(ms, req)))
  {
    var model, m := ModelOf(r), MeaningOf(MatchersSay(ms, req));
    LeavesAreFaithful(ms, req);
    NewUsesSupported(r, ms);
    HalfIsExact(model.permissions, PermissionLeaf(ms), action, MetadataSat(ms, req), m);
    HalfIsExact(model.principals, PrincipalLeaf(ms), action, IdentitySat(ms, req), m);
    ModelMeansRule(r, MatchersSay(ms, req));
  }

  // --- Conditions a half does not support ---

  /** An ALLOW policy that is generated at all is exact, whatever the generators: the others are
      dropped as a whole. */
  lemma AllowIsExactOrDropped<P, Q>(model: Model, leafP: LeafGen<P>, leafQ: LeafGen<Q>, satP: P -> bool, satQ: Q -> bool, mP: Meaning, mQ: Meaning)
    requires Faithful(leafP, satP, mP) && LeavesWellFormed(leafP) && Faithful(leafQ, satQ, mQ) && LeavesWellFormed(leafQ)
    ensures var policy := PolicyOf(model, leafP, leafQ, ALLOW);
            policy.Some? ==> (PolicyMatches(policy.value, satP, satQ) <==>
                                HalfMeans(model.permissions, mP) && HalfMeans(model.principals, mQ))
  {
    if PolicyOf(model, leafP, leafQ, ALLOW).Some? {
      GeneratedHasLeaves(model.permissions, leafP, satP, mP);
      GeneratedHasLeaves(model.principals, leafQ, satQ, mQ);
      HalfIsExact(model.permissions, leafP, ALLOW, satP, mP);
      HalfIsExact(model.principals, leafQ, ALLOW, satQ, mQ);
    }
  }

  lemma GeneratedHasLeaves<L>(half: seq<Rules>, leaf: LeafGen<L>, sat: L -> bool, m: Meaning)
    requires Faithful(leaf, sat, m) && LeavesWellFormed(leaf) && HalfTrees(half, leaf, ALLOW).Some?
    ensures forall i, j :: 0 <= i < |half| && 0 <= j < |half[i]| ==> RuleLeaves(half[i][j], leaf)
  {
    forall i, j | 0 <= i < |half| && 0 <= j < |half[i]|
      ensures RuleLeaves(half[i][j], leaf)
    {
      RuleTreesMean(half[i][j], leaf, ALLOW, sat, m);
      if RuleTrees(half[i][j], leaf, ALLOW).None? {
        RulesFail(half[i], leaf, ALLOW, j);
        HalfFails(half, leaf, ALLOW, i);
      }
    }
  }

  lemma HalfIsWider<L>(half: seq<Rules>, leaf: LeafGen<L>, action: Action, sat: L -> bool, m: Meaning)
    requires Faithful(leaf, sat, m) && LeavesWellFormed(leaf) && Uniform(leaf) && action != ALLOW
    ensures HalfClaim(Wider, half, leaf, action, sat, m)
  {
    forall i | 0 <= i < |half|
      ensures RulesClaim(Wider, half[i], leaf, action, sat, m)
    {
      forall j | 0 <= j < |half[i]|
        ensures RuleClaim(Wider, half[i][j], leaf, action, sat, m)
      {
        RuleTreesMean(half[i][j], leaf, action, sat, m);
        WiderRule(half[i][j], leaf, action, sat, m);
      }
      RulesFollow(Wider, half[i], leaf, action, sat, m);
    }
    HalfFollows(Wider, half, leaf, action, sat, m);
  }

  /** A DENY policy over generators that each always succeed or always fail matches at least the
      requests it is meant to. */
  lemma DenyIsWider<P, Q>(model: Model, leafP: LeafGen<P>, leafQ: LeafGen<Q>, action: Action, satP: P -> bool, satQ: Q -> bool, mP: Meaning, mQ: Meaning)
    requires Faithful(leafP, satP, mP) && LeavesWellFormed(leafP) && Uniform(leafP)
    requires Faithful(leafQ, satQ, mQ) && LeavesWellFormed(leafQ) && Uniform(leafQ)
    requires model.permissions != [] && model.principals != [] && action != ALLOW
    ensures var policy := PolicyOf(model, leafP, leafQ, action);
            && policy.Some?
            && (HalfMeans(model.permissions, mP) && HalfMeans(model.principals, mQ) ==> PolicyMatches(policy.value, satP, satQ))
  {
    HalfIsWider(model.permissions, leafP, action, satP, mP);
    HalfIsWider(model.principals, leafQ, action, satQ, mQ);
  }

  /** The four generators are of that kind on both halves. */
  lemma DubboGeneratorsAreUniform<M>(ms: Matchers<M>)
    ensures Uniform(PermissionLeaf(ms)) && Uniform(PrincipalLeaf(ms))
  {
    forall g: Generator
      ensures Supports(PermissionLeaf(ms), g) || Ignores(PermissionLeaf(ms), g)
      ensures Supports(PrincipalLeaf(ms), g) || Ignores(PrincipalLeaf(ms), g)
    {
    }
  }

  /** A generator whose leaves are the values it supports. */
  function Partial(ok: string -> bool): LeafGen<string> {
    (g: Generator, v: string) => if ok(v) then Some(Leaf(v)) else None
  }

  /** Some value is supported and another is not, and the latter is not excluded anyway. */
  predicate LosesAValue(r: Rule, ok: string -> bool) {
    exists i, j :: 0 <= i < |r.values| && 0 <= j < |r.values| && ok(r.values[i]) && !ok(r.values[j]) && r.values[j] !in r.notValues
  }

  function Exactly(matched: set<string>): string -> bool {
    v => v in matched
  }

  function Regardless(says: string -> bool): Meaning {
    (g: Generator, v: string) => says(v)
  }

  /** The request in which exactly these values match is denied by the translated rule. */
  predicate Denied(r: Rule, ok: string -> bool, matched: set<string>) {
    var trees := RuleTrees(r, Partial(ok), DENY);
    trees.Some? && AllHold(trees.value, Exactly(matched))
  }

  lemma DeniedIff(r: Rule, ok: string -> bool, matched: set<string>)
    ensures RuleTrees(r, Partial(ok), DENY).Some?
    ensures Denied(r, ok, matched) <==>
            && ((forall v :: v in r.values ==> !ok(v)) || exists v :: v in r.values && ok(v) && v in matched)
            && !exists v :: v in r.notValues && ok(v) && v in matched
  {
    var leaf, m := Partial(ok), Regardless(Exactly(matched));
    RuleTreesMean(r, leaf, DENY, Exactly(matched), m);
    assert NoLeaf(r.g, r.values, leaf) <==> forall v :: v in r.values ==> !ok(v);
    assert SomeValue(r.g, r.values, Supported(leaf, m)) <==> exists v :: v in r.values && ok(v) && v in matched;
    assert SomeValue(r.g, r.notValues, Supported(leaf, m)) <==> exists v :: v in r.notValues && ok(v) && v in matched;
  }

  lemma MeantIff(r: Rule, matched: set<string>)
    ensures RuleMeans(r, Regardless(Exactly(matched))) <==>
            && (r.values == [] || exists v :: v in r.values && v in matched)
            && !exists v :: v in r.notValues && v in matched
  {
    var m := Regardless(Exactly(matched));
    assert SomeValue(r.g, r.values, m) <==> exists v :: v in r.values && v in matched;
    assert SomeValue(r.g, r.notValues, m) <==> exists v :: v in r.notValues && v in matched;
  }

  /** For generators that support only some values, dropping an error does not always widen a DENY
      rule: it does so exactly when the rule loses no value it needs. */
  lemma DenyIsWiderIff(r: Rule, ok: string -> bool)
    ensures !LosesAValue(r, ok) <==>
            forall matched :: RuleMeans(r, Regardless(Exactly(matched))) ==> Denied(r, ok, matched)
  {
    if LosesAValue(r, ok) {
      var i, j :| 0 <= i < |r.values| && 0 <= j < |r.values| && ok(r.values[i]) && !ok(r.values[j]) && r.values[j] !in r.notValues;
      MeantIff(r, {r.values[j]});
      DeniedIff(r, ok, {r.values[j]});
    } else {
      forall matched | RuleMeans(r, Regardless(Exactly(matched)))
        ensures Denied(r, ok, matched)
      {
        MeantIff(r, matched);
        DeniedIff(r, ok, matched);
      }
    }
  }
}
