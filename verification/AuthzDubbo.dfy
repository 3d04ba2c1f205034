/**
  The Dubbo compiler end to end: with the real matchers, a compiled policy matches the requests that
  a reader of the policy expects.
 */
module AuthzDubbo {
  import opened Mesh
  import opened Text
  import opened Regex
  import opened Rbac
  import opened AuthzModel
  import opened AuthzMatchers
  import opened AuthzPolicy

  /** The matchers of the source, evaluated by an engine. */
  function DubboMatchers(engine: Engine): Matchers<StringMatcher> {
    Matchers(v => StringMatcherWithPrefix(v, ""), NamespaceMatcher, PrincipalMatcher,
             (m: StringMatcher, s: string) => Accepts(m, engine, s))
  }

  predicate TextSays(v: string, s: string) {
    if v == "*" then s != "" else ValueSays(v, s)
  }

  /** A call of a Dubbo method by an authenticated workload. */
  datatype DubboCall = DubboCall(caller: Workload, service: string, method_: string)
  {
    predicate Valid() {
      && caller.Valid() && caller.trustDomain != "ns" && caller.namespace != "ns"
      && OneLine(service) && OneLine(method_)
    }

    function AsRequest(): Request {
      Request(Some(caller.Spiffe()), map["service" := service, "method" := method_])
    }

    /** What the values of a policy say about the call. A lone star asks an interface or a method to be
        non-empty; principals and namespaces of an authenticated caller always satisfy it. */
    function Reading(): Says {
      Says(v => ValueSays(v, caller.Principal()), v => ValueSays(v, caller.namespace),
           v => TextSays(v, service), v => TextSays(v, method_))
    }
  }

  /** A label with at most one star, at its end or at its start; at its start only if `sa`, the path
      segment that follows the namespace, does not end with the label. */
  predicate PlainNamespace(v: string) {
    || Label(v)
    || (HasSuffix(v, "*") && Label(v[..|v| - 1]))
    || (HasPrefix(v, "*") && Label(v[1..]) && !HasSuffix("sa", v[1..]))
  }

  ghost predicate All(values: seq<string>, notValues: seq<string>, p: string -> bool) {
    (forall v :: v in values ==> p(v)) && (forall v :: v in notValues ==> p(v))
  }

  /** Every principal and namespace of the rule can be read as it is written. */
  ghost predicate Readable(r: PolicyRule) {
    forall i :: 0 <= i < |r.from| && r.from[i].Some? ==>
      && All(r.from[i].value.principals, r.from[i].value.notPrincipals, Plain)
      && All(r.from[i].value.namespaces, r.from[i].value.notNamespaces, PlainNamespace)
  }

  lemma LabelSays(v: string, s: string)
    requires Label(v)
    ensures ValueSays(v, s) <==> s == v
    ensures ValueSays(v + "*", s) <==> HasPrefix(s, v)
    ensures ValueSays("*" + v, s) <==> HasSuffix(s, v)
  {
    assert ("*" + v)[1..] == v && s[|s|..] == "";
    assert IsMeta('*') && forall c :: c in v ==> c != '*';
    assert v != "" ==> v[0] in v && v[|v| - 1] in v && (v + "*")[0] == v[0];
    assert (v + "*")[..|v|] == v;
  }

  lemma NamespaceSays(v: string, engine: Engine, w: Workload)
    requires IsRe2(engine) && PlainNamespace(v) && w.Valid() && w.trustDomain != "ns" && w.namespace != "ns"
    ensures Accepts(NamespaceMatcher(v), engine, w.Spiffe()) <==> ValueSays(v, w.namespace)
  {
    if Label(v) {
      LabelSays(v, w.namespace);
      ExactNamespaceIff(v, engine, w);
    } else if HasSuffix(v, "*") && Label(v[..|v| - 1]) {
      var u := v[..|v| - 1];
      assert v == u + "*";
      LabelSays(u, w.namespace);
      PrefixNamespaceIff(u, engine, w);
    } else {
      var u := v[1..];
      assert v == "*" + u;
      LabelSays(u, w.namespace);
      SuffixNamespaceIff(u, engine, w);
    }
  }

  lemma SpiffePrefixIsLiteral()
    ensures Literal(SPIFFE_PREFIX) && SPIFFE_PREFIX != ""
  {
  }

  lemma PrincipalAtSays(v: string, engine: Engine, p: string)
    requires IsRe2(engine) && Plain(v) && OneLine(SPIFFE_PREFIX + p)
    ensures Accepts(PrincipalMatcher(v), engine, SPIFFE_PREFIX + p) <==> ValueSays(v, p)
  {
    SpiffePrefixIsLiteral();
    assert (SPIFFE_PREFIX + p)[|SPIFFE_PREFIX|..] == p;
    MatcherSays(v, SPIFFE_PREFIX, engine, SPIFFE_PREFIX + p);
  }

  lemma PrincipalSays(v: string, engine: Engine, w: Workload)
    requires IsRe2(engine) && Plain(v) && w.Valid()
    ensures Accepts(PrincipalMatcher(v), engine, w.Spiffe()) <==> ValueSays(v, w.Principal())
  {
    SpiffeOneLine(w);
    PrincipalAtSays(v, engine, w.Principal());
  }

  lemma TextMatches(v: string, engine: Engine, s: string)
    requires IsRe2(engine) && OneLine(s)
    ensures Accepts(StringMatcherWithPrefix(v, ""), engine, s) <==> TextSays(v, s)
  {
    assert s[0..] == s;
    MatcherSays(v, "", engine, s);
  }

  lemma HoldsAgree(values: seq<string>, notValues: seq<string>, a: string -> bool, b: string -> bool)
    requires forall v :: v in values || v in notValues ==> a(v) == b(v)
    ensures Holds(values, notValues, a) <==> Holds(values, notValues, b)
  {
    assert Lists(values, a) <==> Lists(values, b);
    assert Lists(notValues, a) <==> Lists(notValues, b);
  }

  lemma SourceAgrees(source: Option<Source>, engine: Engine, call: DubboCall)
    requires IsRe2(engine) && call.Valid()
    requires source.Some? ==>
               && All(source.value.principals, source.value.notPrincipals, Plain)
               && All(source.value.namespaces, source.value.notNamespaces, PlainNamespace)
    ensures SourceHolds(source, MatchersSay(DubboMatchers(engine), call.AsRequest())) <==> SourceHolds(source, call.Reading())
  {
    if source.Some? {
      var s, a, b := source.value, MatchersSay(DubboMatchers(engine), call.AsRequest()), call.Reading();
      forall v | v in s.principals || v in s.notPrincipals ensures a.principal(v) == b.principal(v) {
        PrincipalSays(v, engine, call.caller);
      }
      forall v | v in s.namespaces || v in s.notNamespaces ensures a.namespace(v) == b.namespace(v) {
        NamespaceSays(v, engine, call.caller);
      }
      HoldsAgree(s.principals, s.notPrincipals, a.principal, b.principal);
      HoldsAgree(s.namespaces, s.notNamespaces, a.namespace, b.namespace);
    }
  }

  lemma OperationAgrees(operation: Option<Operation>, engine: Engine, call: DubboCall)
    requires IsRe2(engine) && call.Valid()
    ensures OperationHolds(operation, MatchersSay(DubboMatchers(engine), call.AsRequest())) <==> OperationHolds(operation, call.Reading())
  {
    if operation.Some? {
      var o, a, b := operation.value, MatchersSay(DubboMatchers(engine), call.AsRequest()), call.Reading();
      forall v ensures a.interface(v) == b.interface(v) && a.method_(v) == b.method_(v) {
        TextMatches(v, engine, call.service);
        TextMatches(v, engine, call.method_);
      }
      HoldsAgree(o.interfaces, o.notInterfaces, a.interface, b.interface);
      HoldsAgree(o.methods, o.notMethods, a.method_, b.method_);
    }
  }

  lemma RuleAgrees(r: PolicyRule, engine: Engine, call: DubboCall)
    requires IsRe2(engine) && Readable(r) && call.Valid()
    ensures RuleHolds(r, MatchersSay(DubboMatchers(engine), call.AsRequest())) <==> RuleHolds(r, call.Reading())
  {
    forall i | 0 <= i < |r.from| {
      SourceAgrees(r.from[i], engine, call);
    }
    forall i | 0 <= i < |r.to| {
      OperationAgrees(r.to[i], engine, call);
    }
  }

  /** For every readable rule, every call and either action, the compiled policy matches the call
      exactly when the rule, read as it is written, holds of it. */
  lemma {:induction false} PolicyMeansWhatItSays(r: PolicyRule, engine: Engine, call: DubboCall, action: Action)
    requires IsRe2(engine) && Readable(r) && call.Valid()
    ensures var ms, req := DubboMatchers(engine), call.AsRequest();
            var policy := PolicyOf(ModelOf(r), PermissionLeaf(ms), PrincipalLeaf(ms), action);
            policy.Some? && (PolicyMatches(policy.value, MetadataSat(ms, req), IdentitySat(ms, req)) <==> RuleHolds(r, call.Reading()))
  {
    CompilerIsCorrect(r, DubboMatchers(engine), call.AsRequest(), action);
    RuleAgrees(r, engine, call);
  }
}
