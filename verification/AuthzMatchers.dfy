/**
  The leaves of a Dubbo authorization policy: the string matchers generated for namespaces,
  principals, interfaces and methods, and what exactly they accept.
 */
module AuthzMatchers {
  import opened Mesh
  import opened Text
  import opened Regex

  datatype StringMatcher = Exact(s: string) | Prefix(s: string) | Suffix(s: string) | SafeRegex(re: string)

  /** A regular expression engine: does the pattern match the whole input? */
  type Engine = (string, string) -> bool

  /** The engine agrees with RE2 on the fragment. */
  ghost predicate IsRe2(engine: Engine) {
    forall re, s :: Parse(re).Some? ==> engine(re, s) == Matches(Parse(re).value, s)
  }

  predicate Accepts(m: StringMatcher, engine: Engine, s: string) {
    match m
    case Exact(v) => s == v
    case Prefix(v) => HasPrefix(s, v)
    case Suffix(v) => HasSuffix(s, v)
    case SafeRegex(re) => engine(re, s)
  }

  function StringMatcherWithPrefix(v: string, prefix: string): StringMatcher {
    if v == "*" then SafeRegex(".+")
    else if HasPrefix(v, "*") then
      if prefix == "" then Suffix(v[1..]) else SafeRegex(prefix + ".*" + v[1..])
    else if HasSuffix(v, "*") then Prefix(prefix + v[..|v| - 1])
    else Exact(prefix + v)
  }

  function ReplaceStars(v: string): string {
    if v == "" then "" else (if v[0] == '*' then ".*" else [v[0]]) + ReplaceStars(v[1..])
  }

  /** The pattern for a source namespace. */
  function NamespaceMatcher(v: string): StringMatcher {
    SafeRegex(".*/ns/" + ReplaceStars(v) + "/.*")
  }

  const SPIFFE_PREFIX := "spiffe://"

  function PrincipalMatcher(v: string): StringMatcher {
    StringMatcherWithPrefix(v, SPIFFE_PREFIX)
  }

  // --- What a value is meant to say ---

  /** `*` for anything, `*w` for a suffix, `w*` for a prefix, else the value itself. */
  predicate ValueSays(v: string, s: string) {
    if v == "*" then true
    else if HasPrefix(v, "*") then HasSuffix(s, v[1..])
    else if HasSuffix(v, "*") then HasPrefix(s, v[..|v| - 1])
    else s == v
  }

  /** What follows a leading star has no character that a regular expression reads specially. */
  predicate Plain(v: string) {
    HasPrefix(v, "*") ==> Literal(v[1..])
  }

  lemma AfterPrefix(prefix: string, v: string, t: string)
    ensures HasPrefix(t, prefix + v) <==> HasPrefix(t, prefix) && HasPrefix(t[|prefix|..], v)
    ensures t == prefix + v <==> HasPrefix(t, prefix) && t[|prefix|..] == v
  {
    if HasPrefix(t, prefix) {
      assert t == prefix + t[|prefix|..];
    }
    if HasPrefix(t, prefix + v) {
      assert t[..|prefix|] == (prefix + v)[..|prefix|] == prefix;
      assert t[|prefix|..][..|v|] == (prefix + v)[|prefix|..] == v;
    }
  }

  lemma PlusMatches(s: string)
    requires OneLine(s)
    ensures Parse(".+") == Some([AnyPlus])
    ensures Matches([AnyPlus], s) <==> s != ""
  {
    assert ".+"[2..] == "" && Parse("") == Some([]) && [AnyPlus] + [] == [AnyPlus];
    assert [AnyPlus][1..] == [] && [AnyStar] + [] == [AnyStar];
    if s != "" {
      MatchAll(s[1..]);
    }
  }

  lemma Reassociate<T>(a: seq<T>, b: seq<T>, c: seq<T>)
    ensures a + b + c == a + (b + c)
  {
  }

  lemma SuffixPatternParses(prefix: string, w: string)
    requires Literal(prefix) && Literal(w)
    ensures Parse(prefix + ".*" + w) == Some(Lits(prefix) + ([AnyStar] + Lits(w)))
  {
    ParseLiteral(w, "");
    assert w + "" == w && Lits(w) + [] == Lits(w);
    ParseStar(w);
    ParseLiteral(prefix, ".*" + w);
    Reassociate(prefix, ".*", w);
  }

  lemma SuffixPatternMatches(prefix: string, w: string, t: string)
    requires OneLine(t)
    ensures Matches(Lits(prefix) + ([AnyStar] + Lits(w)), t) <==> HasPrefix(t, prefix) && HasSuffix(t[|prefix|..], w)
  {
    MatchLits(prefix, [AnyStar] + Lits(w), t);
    if HasPrefix(t, prefix) {
      MatchSuffix(w, t[|prefix|..]);
    }
  }

  /** What the matcher for a value with a fixed prefix accepts, of all strings on one line: for `*` the
      non-empty ones, whatever the prefix; otherwise exactly those that start with the prefix and whose
      rest is what the value says. */
  lemma MatcherSays(v: string, prefix: string, engine: Engine, t: string)
    requires IsRe2(engine) && (prefix != "" ==> Plain(v)) && Literal(prefix) && OneLine(t)
    ensures Accepts(StringMatcherWithPrefix(v, prefix), engine, t) <==>
            if v == "*" then t != "" else HasPrefix(t, prefix) && ValueSays(v, t[|prefix|..])
  {
    AfterPrefix(prefix, v, t);
    if v == "*" {
      PlusMatches(t);
    } else if HasPrefix(v, "*") {
      if prefix == "" {
        assert t[0..] == t;
      } else {
        SuffixPatternParses(prefix, v[1..]);
        SuffixPatternMatches(prefix, v[1..], t);
      }
    } else if HasSuffix(v, "*") {
      AfterPrefix(prefix, v[..|v| - 1], t);
    }
  }

  /** A string that the tokens match and that has no dot. */
  function Sample(tokens: seq<Token>): string {
    if tokens == [] then ""
    else (match tokens[0] case Lit(c) => [c] case AnyStar => "" case _ => "x") + Sample(tokens[1..])
  }

  lemma {:induction false} SampleMatches(re: string)
    requires Parse(re).Some?
    ensures Matches(Parse(re).value, Sample(Parse(re).value))
    ensures '.' !in Sample(Parse(re).value) && (OneLine(re) ==> OneLine(Sample(Parse(re).value)))
    ensures !Literal(re) ==> '.' in re
  {
    if re != "" {
      var tokens := Parse(re).value;
      var n := if tokens[0] in [AnyStar, AnyPlus] then 2 else 1;
      assert re == re[..n] + re[n..];
      SampleMatches(re[n..]);
      var tail := Sample(tokens[1..]);
      if tokens[0].Lit? || tokens[0].AnyChar? || tokens[0].AnyPlus? {
        assert Sample(tokens)[1..] == tail;
      } else {
        assert Sample(tokens) == tail;
      }
      if tokens[0].AnyPlus? {
        assert ([AnyStar] + tokens[1..])[1..] == tokens[1..];
      }
    }
  }

  lemma SuffixChar(s: string, w: string, c: char)
    requires HasSuffix(s, w) && c in w
    ensures c in s
  {
    assert s == s[..|s| - |w|] + w;
  }

  /** Otherwise it has a dot, and a string without one is accepted. */
  lemma DotStandsForAnything(w: string, prefix: string, engine: Engine) returns (s: string)
    requires IsRe2(engine) && Literal(prefix) && Parse(w).Some? && !Literal(w) && OneLine(prefix + w)
    ensures OneLine(prefix + s) && '.' in w && '.' !in s
    ensures engine(prefix + ".*" + w, prefix + s)
  {
    var tokens := Parse(w).value;
    s := Sample(tokens);
    assert forall c :: c in w ==> c in prefix + w;
    assert forall c :: c in prefix ==> c in prefix + w;
    SampleMatches(w);
    ParseStar(w);
    ParseLiteral(prefix, ".*" + w);
    assert prefix + (".*" + w) == prefix + ".*" + w;
    MatchLits(prefix, [AnyStar] + tokens, prefix + s);
    assert (prefix + s)[|prefix|..] == s && ([AnyStar] + tokens)[1..] == tokens;
  }

  /** For a value with a leading star and a pattern the fragment covers, the generated regular
      expression says what the value says exactly when what follows the star is literal; a dot there
      stands for any character. */
  lemma LeadingStarIff(w: string, prefix: string, engine: Engine)
    requires IsRe2(engine) && Literal(prefix) && prefix != "" && w != "" && Parse(w).Some? && OneLine(prefix + w)
    ensures Literal(w) <==>
            forall s :: OneLine(prefix + s) ==>
              (Accepts(StringMatcherWithPrefix("*" + w, prefix), engine, prefix + s) <==> ValueSays("*" + w, s))
  {
    assert ("*" + w)[1..] == w;
    if Literal(w) {
      forall s | OneLine(prefix + s)
        ensures Accepts(StringMatcherWithPrefix("*" + w, prefix), engine, prefix + s) <==> ValueSays("*" + w, s)
      {
        assert (prefix + s)[|prefix|..] == s;
        MatcherSays("*" + w, prefix, engine, prefix + s);
      }
    } else {
      var s := DotStandsForAnything(w, prefix, engine);
      if HasSuffix(s, w) {
        SuffixChar(s, w, '.');
      }
    }
  }

  // --- Source namespaces ---

  /** The identity of a workload: trust domain, namespace and service account. */
  datatype Workload = Workload(trustDomain: string, namespace: string, account: string)
  {
    predicate Valid() {
      && '/' !in trustDomain && '/' !in namespace && '/' !in account
      && OneLine(trustDomain) && OneLine(namespace) && OneLine(account)
    }

    /** Without the scheme, as principals are written in a policy. */
    function Principal(): string {
      trustDomain + ("/" + ("ns" + ("/" + (namespace + ("/" + ("sa" + ("/" + account)))))))
    }

    function Spiffe(): string { SPIFFE_PREFIX + Principal() }
  }

  // Reading a path segment by segment.

  lemma SegmentPrefix(seg: string, rest: string, a: string, q: string)
    requires '/' !in seg && '/' !in a
    ensures HasPrefix(seg + ("/" + rest), a + ("/" + q)) <==> seg == a && HasPrefix(rest, q)
  {
    var s, p := seg + ("/" + rest), a + ("/" + q);
    assert s[|seg|] == '/' && p[|a|] == '/';
    if HasPrefix(s, p) {
      assert forall i :: 0 <= i < |p| ==> s[i] == p[i];
      assert forall i :: 0 <= i < |a| ==> p[i] == a[i];
      assert forall i :: 0 <= i < |seg| ==> s[i] == seg[i];
      assert |seg| == |a|;
      assert s[..|a|] == seg && p[..|a|] == a;
      assert s[|a| + 1..] == rest && p[|a| + 1..] == q;
      assert s[|a| + 1..][..|q|] == p[|a| + 1..];
    }
    if seg == a && HasPrefix(rest, q) {
      assert s[..|p|] == p;
    }
  }

  lemma SegmentFollowed(seg: string, rest: string, a: string, q: string, x: string)
    requires '/' !in seg && '/' !in a
    ensures FollowedBy(seg + ("/" + rest), a + ("/" + q), x) <==> seg == a && FollowedBy(rest, q, x)
  {
    SegmentPrefix(seg, rest, a, q);
    if seg == a && HasPrefix(rest, q) {
      assert (seg + ("/" + rest))[|a + ("/" + q)|..] == rest[|q|..];
    }
  }

  /** Some slash of `s` is followed by `q`, with `x` somewhere after. */
  predicate SlashThen(s: string, q: string, x: string) {
    s != "" && ((s[0] == '/' && FollowedBy(s[1..], q, x)) || SlashThen(s[1..], q, x))
  }

  lemma {:induction false} SlashThenIff(s: string, q: string, x: string)
    ensures SlashThen(s, q, x) <==> ContainsInOrder(s, "/" + q, x)
  {
    assert s[0..] == s;
    if s != "" {
      SlashThenIff(s[1..], q, x);
      assert s[0] == '/' ==> "" + ("/" + s[1..]) == s;
      SegmentFollowed("", s[1..], "", q, x);
      assert "" + ("/" + q) == "/" + q;
      assert FollowedBy(s, "/" + q, x) ==> s[0] == ("/" + q)[0];
      if ContainsInOrder(s[1..], "/" + q, x) {
        var k :| 0 <= k <= |s| - 1 && FollowedBy(s[1..][k..], "/" + q, x);
        assert s[1..][k..] == s[k + 1..];
      }
      if ContainsInOrder(s, "/" + q, x) && !FollowedBy(s, "/" + q, x) {
        var k :| 0 <= k <= |s| && FollowedBy(s[k..], "/" + q, x);
        assert s[1..][k - 1..] == s[k..];
      }
    }
  }

  lemma {:induction false} SkipSegment(seg: string, rest: string, q: string, x: string)
    requires '/' !in seg
    ensures SlashThen(seg + ("/" + rest), q, x) <==> FollowedBy(rest, q, x) || SlashThen(rest, q, x)
  {
    var s := seg + ("/" + rest);
    if seg == "" {
      assert s[1..] == rest;
    } else {
      assert s[1..] == seg[1..] + ("/" + rest) && s[0] == seg[0] && seg[0] in seg;
      SkipSegment(seg[1..], rest, q, x);
    }
  }

  lemma {:induction false} NoSlashLeft(s: string, q: string, x: string)
    requires '/' !in s
    ensures !SlashThen(s, q, x)
  {
    if s != "" {
      assert s[0] in s;
      NoSlashLeft(s[1..], q, x);
    }
  }

  /** A pattern that starts with `/ns/` can start at three places in an identity. */
  lemma NamespaceOccurs(w: Workload, q: string, x: string)
    requires w.Valid()
    ensures ContainsInOrder(w.Spiffe(), "/" + ("ns" + ("/" + q)), x) <==>
            || (w.trustDomain == "ns" && FollowedBy("ns" + ("/" + (w.namespace + ("/" + ("sa" + ("/" + w.account))))), q, x))
            || FollowedBy(w.namespace + ("/" + ("sa" + ("/" + w.account))), q, x)
            || (w.namespace == "ns" && FollowedBy("sa" + ("/" + w.account), q, x))
  {
    var p := "ns" + ("/" + q);
    var sa := "sa" + ("/" + w.account);
    var n := w.namespace + ("/" + sa);
    var ns := "ns" + ("/" + n);
    assert w.Spiffe() == "spiffe:" + ("/" + ("" + ("/" + w.Principal())));
    SlashThenIff(w.Spiffe(), p, x);
    SkipSegment("spiffe:", "" + ("/" + w.Principal()), p, x);
    SegmentFollowed("", w.Principal(), "ns", q, x);
    SkipSegment("", w.Principal(), p, x);
    SegmentFollowed(w.trustDomain, ns, "ns", q, x);
    SkipSegment(w.trustDomain, ns, p, x);
    SegmentFollowed("ns", n, "ns", q, x);
    SkipSegment("ns", n, p, x);
    SegmentFollowed(w.namespace, sa, "ns", q, x);
    SkipSegment(w.namespace, sa, p, x);
    SegmentFollowed("sa", w.account, "ns", q, x);
    SkipSegment("sa", w.account, p, x);
    NoSlashLeft(w.account, p, x);
    assert !HasPrefix(w.account, p) by {
      assert p[2] == '/';
    }
  }

  lemma {:induction false} NoStars(v: string, rest: string)
    requires Literal(v)
    ensures ReplaceStars(v + rest) == v + ReplaceStars(rest)
  {
    if v == "" {
      assert v + rest == rest;
    } else {
      assert IsMeta('*') && v[0] in v && (v + rest)[1..] == v[1..] + rest;
      NoStars(v[1..], rest);
    }
  }

  lemma SpiffeOneLine(w: Workload)
    requires w.Valid()
    ensures OneLine(w.Spiffe())
  {
    var s := w.Spiffe();
    assert s == "spiffe://" + w.trustDomain + "/ns/" + w.namespace + "/sa/" + w.account;
  }

  lemma ContainsIsInOrder(s: string, u: string)
    ensures Contains(s, u) <==> ContainsInOrder(s, u, "")
  {
    if Contains(s, u) {
      var k := ContainedAt(s, u);
      assert FollowedBy(s[k..], u, "");
    }
    if ContainsInOrder(s, u, "") {
      var k :| 0 <= k <= |s| && FollowedBy(s[k..], u, "");
      ContainsAt(s, k, u);
    }
  }

  /** A namespace name: literal, on one line, without a slash, as every DNS label is. */
  predicate Label(v: string) {
    Literal(v) && '/' !in v && OneLine(v)
  }

  lemma ParseEnd(w: string)
    requires Literal(w)
    ensures Parse(w + ".*") == Some(Lits(w) + [AnyStar])
  {
    ParseStar("");
    assert ".*" + "" == ".*" && [AnyStar] + [] == [AnyStar];
    ParseLiteral(w, ".*");
  }

  lemma ExactText(v: string)
    requires Literal(v)
    ensures ".*/ns/" + ReplaceStars(v) + "/.*" == ".*" + ("/ns/" + v + "/" + ".*")
  {
    NoStars(v, "");
    assert v + "" == v && ReplaceStars("") == "" && v + ReplaceStars("") == v;
  }

  lemma ExactPattern(v: string)
    requires Literal(v)
    ensures Parse(".*/ns/" + ReplaceStars(v) + "/.*") == Some(Amid("/ns/" + v + "/"))
  {
    var u := "/ns/" + v + "/";
    ExactText(v);
    ParseEnd(u);
    ParseStar(u + ".*");
  }

  lemma PrefixPattern(u: string)
    requires Literal(u)
    ensures Parse(".*/ns/" + ReplaceStars(u + "*") + "/.*") == Some([AnyStar] + (Lits("/ns/" + u) + Amid("/")))
  {
    NoStars(u, "*");
    assert ReplaceStars("*") == ".*";
    ParseEnd("/");
    var tail := ".*" + ("/" + ".*");
    ParseStar("/" + ".*");
    ParseLiteral("/ns/" + u, tail);
    ParseStar("/ns/" + u + tail);
    assert ".*" + ("/ns/" + u + tail) == ".*/ns/" + (u + ".*") + "/.*";
  }

  lemma SuffixText(u: string)
    requires Literal(u)
    ensures ".*/ns/" + ReplaceStars("*" + u) + "/.*" == ".*" + ("/ns/" + (".*" + (u + "/" + ".*")))
  {
    NoStars(u, "");
    assert u + "" == u && ReplaceStars("") == "" && u + ReplaceStars("") == u;
    assert ("*" + u)[1..] == u;
  }

  lemma SuffixPattern(u: string)
    requires Literal(u)
    ensures Parse(".*/ns/" + ReplaceStars("*" + u) + "/.*") == Some([AnyStar] + (Lits("/ns/") + Amid(u + "/")))
  {
    var end := u + "/" + ".*";
    SuffixText(u);
    ParseEnd(u + "/");
    ParseStar(end);
    ParseLiteral("/ns/", ".*" + end);
    ParseStar("/ns/" + (".*" + end));
  }

  /** Every character is a star or literal. */
  predicate Starred(v: string) {
    forall i :: 0 <= i < |v| ==> v[i] == '*' || !IsMeta(v[i])
  }

  lemma ParseChar(c: char, re: string)
    requires !IsMeta(c) && Parse(re).Some?
    ensures Parse([c] + re) == Some([Lit(c)] + Parse(re).value)
  {
    assert IsMeta('.') && ([c] + re)[1..] == re;
  }

  lemma {:induction false} ParseStars(v: string, re: string)
    requires Starred(v) && Parse(re).Some?
    ensures Parse(ReplaceStars(v) + re) == Some(Globs(v) + Parse(re).value)
  {
    if v == "" {
      assert ReplaceStars(v) + re == re && [] + Parse(re).value == Parse(re).value;
    } else {
      var head, rest := if v[0] == '*' then ".*" else [v[0]], ReplaceStars(v[1..]) + re;
      var token := if v[0] == '*' then AnyStar else Lit(v[0]);
      ParseStars(v[1..], re);
      if v[0] == '*' {
        ParseStar(rest);
      } else {
        ParseChar(v[0], rest);
      }
      Reassociate(head, ReplaceStars(v[1..]), re);
      Reassociate([token], Globs(v[1..]), Parse(re).value);
    }
  }

  lemma StarredPattern(v: string)
    requires Starred(v)
    ensures Parse(".*/ns/" + ReplaceStars(v) + "/.*") == Some([AnyStar] + (Lits("/ns/") + (Globs(v) + (Lits("/") + [AnyStar]))))
  {
    var tail := ReplaceStars(v) + ("/" + ".*");
    ParseEnd("/");
    ParseStars(v, "/" + ".*");
    ParseLiteral("/ns/", tail);
    ParseStar("/ns/" + tail);
    assert ".*" + ("/ns/" + tail) == ".*/ns/" + ReplaceStars(v) + "/.*";
  }

  /** From position `i` on, the identity reads `/ns/`, then what the value stands for, then a slash. */
  ghost predicate NamespaceAt(v: string, s: string, i: nat) {
    i <= |s| && HasPrefix(s[i..], "/ns/") && exists j :: i + 4 <= j < |s| && Glob(v, s[i + 4..j]) && s[j] == '/'
  }

  lemma NamespaceTail(v: string, s: string, i: nat)
    requires OneLine(s) && i <= |s|
    ensures Matches(Lits("/ns/") + (Globs(v) + (Lits("/") + [AnyStar])), s[i..]) <==> NamespaceAt(v, s, i)
  {
    MatchLits("/ns/", Globs(v) + (Lits("/") + [AnyStar]), s[i..]);
    if HasPrefix(s[i..], "/ns/") {
      var t := s[i + 4..];
      assert s[i..][4..] == t;
      MatchGlobs(v, Lits("/") + [AnyStar], t);
      forall k | 0 <= k <= |t|
        ensures Matches(Lits("/") + [AnyStar], t[k..]) <==> k < |t| && t[k] == '/'
        ensures t[..k] == s[i + 4..i + 4 + k]
      {
        MatchPrefix("/", t[k..]);
      }
      if j :| i + 4 <= j < |s| && Glob(v, s[i + 4..j]) && s[j] == '/' {
        assert t[..j - i - 4] == s[i + 4..j] && t[j - i - 4] == s[j];
      }
      if GlobThen(v, Lits("/") + [AnyStar], t) {
        var k :| 0 <= k <= |t| && Glob(v, t[..k]) && Matches(Lits("/") + [AnyStar], t[k..]);
        assert Glob(v, s[i + 4..i + 4 + k]) && s[i + 4 + k] == '/';
      }
    }
  }

  /** A value with stars anywhere accepts, of all texts on one line, exactly those that somewhere read
      `/ns/`, what the value stands for, and a slash. */
  lemma {:induction false} StarredNamespaceIff(v: string, engine: Engine, s: string)
    requires IsRe2(engine) && Starred(v) && OneLine(s)
    ensures Accepts(NamespaceMatcher(v), engine, s) <==> exists i: nat :: NamespaceAt(v, s, i)
  {
    var tokens := Lits("/ns/") + (Globs(v) + (Lits("/") + [AnyStar]));
    StarredPattern(v);
    MatchStar(tokens, s);
    forall i: nat | i <= |s|
      ensures Matches(tokens, s[i..]) <==> NamespaceAt(v, s, i)
    {
      NamespaceTail(v, s, i);
    }
  }

  /** An exact namespace accepts exactly the workloads of that namespace, and otherwise only the two
      readings that a trust domain or a namespace called `ns` opens up. */
  lemma ExactNamespaceIff(v: string, engine: Engine, w: Workload)
    requires IsRe2(engine) && Label(v) && w.Valid()
    ensures Accepts(NamespaceMatcher(v), engine, w.Spiffe()) <==>
            || w.namespace == v
            || (w.trustDomain == "ns" && v == "ns")
            || (w.namespace == "ns" && v == "sa")
  {
    var u := "/ns/" + v + "/";
    ExactPattern(v);
    SpiffeOneLine(w);
    MatchContains(u, w.Spiffe());
    ContainsIsInOrder(w.Spiffe(), u);
    assert u == "/" + ("ns" + ("/" + (v + ("/" + ""))));
    NamespaceOccurs(w, v + ("/" + ""), "");
    var sa := "sa" + ("/" + w.account);
    SegmentFollowed("ns", w.namespace + ("/" + sa), v, "", "");
    SegmentFollowed(w.namespace, sa, v, "", "");
    SegmentFollowed("sa", w.account, v, "", "");
  }

  /** A path from one segment on: does it start with `u`, with a slash somewhere after? */
  lemma SegmentStarts(seg: string, rest: string, u: string)
    requires '/' !in seg && '/' !in u
    ensures FollowedBy(seg + ("/" + rest), u, "/") <==> HasPrefix(seg, u)
  {
    var s := seg + ("/" + rest);
    if HasPrefix(s, u) {
      assert s[|seg|] == '/' && forall i :: 0 <= i < |u| ==> u[i] == s[i];
      assert s[..|seg|] == seg;
      assert s[|u|..][|seg| - |u|..] == "/" + rest;
      ContainsAt(s[|u|..], |seg| - |u|, "/");
    }
    if HasPrefix(seg, u) {
      assert s[..|seg|] == seg;
    }
  }

  /** A namespace with a trailing star accepts exactly the prefix meaning, up to the same two
      readings. */
  lemma PrefixNamespaceIff(u: string, engine: Engine, w: Workload)
    requires IsRe2(engine) && Label(u) && w.Valid()
    ensures Accepts(NamespaceMatcher(u + "*"), engine, w.Spiffe()) <==>
            || HasPrefix(w.namespace, u)
            || (w.trustDomain == "ns" && HasPrefix("ns", u))
            || (w.namespace == "ns" && HasPrefix("sa", u))
  {
    PrefixPattern(u);
    SpiffeOneLine(w);
    MatchInOrder("/ns/" + u, "/", w.Spiffe());
    assert "/ns/" + u == "/" + ("ns" + ("/" + u));
    NamespaceOccurs(w, u, "/");
    var sa := "sa" + ("/" + w.account);
    SegmentStarts("ns", w.namespace + ("/" + sa), u);
    SegmentStarts(w.namespace, sa, u);
    SegmentStarts("sa", w.account, u);
  }

  lemma {:induction false} SegmentEnds(seg: string, rest: string, u: string)
    requires '/' !in seg && '/' !in u
    ensures Contains(seg + ("/" + rest), u + "/") <==> HasSuffix(seg, u) || Contains(rest, u + "/")
  {
    var s := seg + ("/" + rest);
    SegmentPrefix(seg, rest, u, "");
    assert u + ("/" + "") == u + "/";
    if seg == "" {
      assert s[1..] == rest;
      assert HasSuffix(seg, u) <==> u == "";
    } else {
      assert s[1..] == seg[1..] + ("/" + rest);
      SegmentEnds(seg[1..], rest, u);
      if |u| < |seg| {
        assert seg[1..][|seg[1..]| - |u|..] == seg[|seg| - |u|..];
      } else {
        assert HasSuffix(seg, u) <==> seg == u;
      }
    }
  }

  /** A namespace with a leading star also accepts every workload when `sa`, the path segment after
      the namespace, ends with what follows the star. */
  lemma SuffixNamespaceIff(u: string, engine: Engine, w: Workload)
    requires IsRe2(engine) && Label(u) && w.Valid()
    ensures Accepts(NamespaceMatcher("*" + u), engine, w.Spiffe()) <==>
            || HasSuffix(w.namespace, u)
            || HasSuffix("sa", u)
            || (w.trustDomain == "ns" && HasSuffix("ns", u))
  {
    SuffixPattern(u);
    SpiffeOneLine(w);
    MatchInOrder("/ns/", u + "/", w.Spiffe());
    assert "/ns/" == "/" + ("ns" + ("/" + ""));
    NamespaceOccurs(w, "", u + "/");
    var sa := "sa" + ("/" + w.account);
    var n := w.namespace + ("/" + sa);
    var ns := "ns" + ("/" + n);
    assert ns[0..] == ns && n[0..] == n && sa[0..] == sa;
    SegmentEnds("ns", n, u);
    SegmentEnds(w.namespace, sa, u);
    SegmentEnds("sa", w.account, u);
    if Contains(w.account, u + "/") {
      ContainsChar(w.account, u + "/", '/');
    }
  }

  lemma ContainsChar(s: string, u: string, c: char)
    requires Contains(s, u) && c in u
    ensures c in s
  {
    var k := ContainedAt(s, u);
    assert s == s[..k] + u + s[k..][|u|..];
  }
}
