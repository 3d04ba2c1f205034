/**
  The fragment of RE2 that the authorization compiler emits: literals, `.`, `.*` and `.+`, matched
  against the whole input. As in RE2's default mode, `.` does not match a newline.
 */
module Regex {
  import opened Mesh
  import opened Text

  datatype Token = Lit(c: char) | AnyChar | AnyStar | AnyPlus

  predicate IsMeta(c: char) {
    || c == '\\' || c == '.' || c == '+' || c == '*' || c == '?' || c == '(' || c == ')'
    || c == '|' || c == '[' || c == ']' || c == '{' || c == '}' || c == '^' || c == '$'
  }

  predicate Literal(s: string) {
    forall c :: c in s ==> !IsMeta(c)
  }

  predicate OneLine(s: string) {
    '\n' !in s
  }

  /** The tokens of a pattern of the fragment; None for any other pattern. */
  function Parse(re: string): Option<seq<Token>> {
    if re == "" then Some([])
    else
      var (token, rest) :=
        if re[0] == '.' && |re| > 1 && re[1] == '*' then (AnyStar, re[2..])
        else if re[0] == '.' && |re| > 1 && re[1] == '+' then (AnyPlus, re[2..])
        else if re[0] == '.' then (AnyChar, re[1..])
        else (Lit(re[0]), re[1..]);
      if (token.Lit? && IsMeta(token.c)) || Parse(rest).None? then None
      else Some([token] + Parse(rest).value)
  }

  predicate Matches(tokens: seq<Token>, s: string)
    decreases |s|, |tokens|
  {
    if tokens == [] then s == ""
    else
      match tokens[0]
      case Lit(c) => s != "" && s[0] == c && Matches(tokens[1..], s[1..])
      case AnyChar => s != "" && s[0] != '\n' && Matches(tokens[1..], s[1..])
      case AnyStar => Matches(tokens[1..], s) || (s != "" && s[0] != '\n' && Matches(tokens, s[1..]))
      case AnyPlus => s != "" && s[0] != '\n' && Matches([AnyStar] + tokens[1..], s[1..])
  }

  function Lits(w: string): seq<Token> {
    if w == "" then [] else [Lit(w[0])] + Lits(w[1..])
  }

  lemma {:induction false} ParseLiteral(w: string, re: string)
    requires Literal(w)
    ensures Parse(w + re) == if Parse(re).None? then None else Some(Lits(w) + Parse(re).value)
  {
    if w == "" {
      assert w + re == re && (Parse(re).Some? ==> [] + Parse(re).value == Parse(re).value);
    } else {
      assert (w + re)[1..] == w[1..] + re;
      assert IsMeta('.');
      ParseLiteral(w[1..], re);
      if Parse(re).Some? {
        assert [Lit(w[0])] + (Lits(w[1..]) + Parse(re).value) == Lits(w) + Parse(re).value;
      }
    }
  }

  lemma ParseStar(re: string)
    ensures Parse(".*" + re) == if Parse(re).None? then None else Some([AnyStar] + Parse(re).value)
  {
    assert (".*" + re)[2..] == re;
  }

  lemma {:induction false} MatchLits(w: string, tokens: seq<Token>, s: string)
    ensures Matches(Lits(w) + tokens, s) <==> HasPrefix(s, w) && Matches(tokens, s[|w|..])
  {
    if w == "" {
      assert Lits(w) + tokens == tokens && s[0..] == s;
    } else {
      assert (Lits(w) + tokens)[1..] == Lits(w[1..]) + tokens;
      if s != "" {
        MatchLits(w[1..], tokens, s[1..]);
        if |w| <= |s| {
          assert s[1..][|w[1..]|..] == s[|w|..];
        }
        assert HasPrefix(s, w) <==> s[0] == w[0] && HasPrefix(s[1..], w[1..]) by {
          if s[0] == w[0] && HasPrefix(s[1..], w[1..]) {
            assert w == [w[0]] + w[1..] && s == [s[0]] + s[1..];
          }
        }
      }
    }
  }

  /** On a single line, `.*` lets the rest of the pattern match any tail. */
  ghost predicate TailMatches(tokens: seq<Token>, s: string) {
    exists k :: 0 <= k <= |s| && Matches(tokens, s[k..])
  }

  lemma {:induction false} MatchStar(tokens: seq<Token>, s: string)
    requires OneLine(s)
    ensures Matches([AnyStar] + tokens, s) <==> TailMatches(tokens, s)
  {
    assert ([AnyStar] + tokens)[1..] == tokens && s[0..] == s;
    if s != "" {
      MatchStar(tokens, s[1..]);
      if TailMatches(tokens, s[1..]) {
        var k :| 0 <= k <= |s| - 1 && Matches(tokens, s[1..][k..]);
        assert s[1..][k..] == s[k + 1..];
      }
      if TailMatches(tokens, s) && !Matches(tokens, s) {
        var k :| 0 <= k <= |s| && Matches(tokens, s[k..]);
        assert s[1..][k - 1..] == s[k..];
      }
    }
  }

  lemma MatchAll(s: string)
    requires OneLine(s)
    ensures Matches([AnyStar], s)
  {
    MatchStar([], s);
    assert s[|s|..] == "" && [AnyStar] + [] == [AnyStar];
  }

  /** `w.*` on a single line: starts with `w`. */
  lemma MatchPrefix(w: string, s: string)
    requires OneLine(s)
    ensures Matches(Lits(w) + [AnyStar], s) <==> HasPrefix(s, w)
  {
    MatchLits(w, [AnyStar], s);
    if HasPrefix(s, w) {
      MatchAll(s[|w|..]);
    }
  }

  /** `.*w` on a single line: ends with `w`. */
  lemma MatchSuffix(w: string, s: string)
    requires OneLine(s)
    ensures Matches([AnyStar] + Lits(w), s) <==> HasSuffix(s, w)
  {
    MatchStar(Lits(w), s);
    forall k | 0 <= k <= |s|
      ensures Matches(Lits(w), s[k..]) <==> s[k..] == w
    {
      MatchLits(w, [], s[k..]);
      assert Lits(w) + [] == Lits(w);
    }
    if HasSuffix(s, w) {
      assert s[|s| - |w|..] == w;
    }
  }

  function Amid(w: string): seq<Token> {
    [AnyStar] + (Lits(w) + [AnyStar])
  }

  /** `.*w.*` on a single line: contains `w`. */
  lemma MatchContains(w: string, s: string)
    requires OneLine(s)
    ensures Matches(Amid(w), s) <==> Contains(s, w)
  {
    MatchStar(Lits(w) + [AnyStar], s);
    forall k | 0 <= k <= |s|
      ensures Matches(Lits(w) + [AnyStar], s[k..]) <==> HasPrefix(s[k..], w)
      ensures HasPrefix(s[k..], w) ==> Contains(s, w)
    {
      MatchPrefix(w, s[k..]);
      if HasPrefix(s[k..], w) {
        ContainsAt(s, k, w);
      }
    }
    if Contains(s, w) {
      var k := ContainedAt(s, w);
    }
  }

  lemma {:induction false} ContainedAt(s: string, w: string) returns (k: nat)
    requires Contains(s, w)
    ensures k <= |s| && HasPrefix(s[k..], w)
  {
    if HasPrefix(s, w) {
      k := 0;
      assert s[0..] == s;
    } else {
      k := ContainedAt(s[1..], w);
      assert s[1..][k..] == s[k + 1..];
      k := k + 1;
    }
  }

  ghost predicate ContainsInOrder(s: string, u: string, w: string) {
    exists k :: 0 <= k <= |s| && FollowedBy(s[k..], u, w)
  }

  predicate FollowedBy(s: string, u: string, w: string) {
    HasPrefix(s, u) && Contains(s[|u|..], w)
  }

  /** `.*u.*w.*` on a single line: contains `u`, and `w` somewhere after it. */
  lemma MatchInOrder(u: string, w: string, s: string)
    requires OneLine(s)
    ensures Matches([AnyStar] + (Lits(u) + Amid(w)), s) <==> ContainsInOrder(s, u, w)
  {
    MatchStar(Lits(u) + Amid(w), s);
    forall k | 0 <= k <= |s|
      ensures Matches(Lits(u) + Amid(w), s[k..]) <==> FollowedBy(s[k..], u, w)
    {
      MatchLits(u, Amid(w), s[k..]);
      if HasPrefix(s[k..], u) {
        MatchContains(w, s[k..][|u|..]);
      }
    }
  }
  // --- Stars ---

  function Globs(v: string): seq<Token> {
    if v == "" then [] else [if v[0] == '*' then AnyStar else Lit(v[0])] + Globs(v[1..])
  }

  /** What a value with stars stands for: each star for any text, every other character for itself. */
  ghost predicate Glob(v: string, s: string) {
    if v == "" then s == ""
    else if v[0] == '*' then exists k :: 0 <= k <= |s| && Glob(v[1..], s[k..])
    else s != "" && s[0] == v[0] && Glob(v[1..], s[1..])
  }

  ghost predicate GlobThen(v: string, tokens: seq<Token>, s: string) {
    exists k :: 0 <= k <= |s| && Glob(v, s[..k]) && Matches(tokens, s[k..])
  }

  lemma {:induction false} MatchGlobs(v: string, tokens: seq<Token>, s: string)
    requires OneLine(s)
    ensures Matches(Globs(v) + tokens, s) <==> GlobThen(v, tokens, s)
    decreases |v|
  {
    if v == "" {
      assert Globs(v) + tokens == tokens && s[..0] == "" && s[0..] == s;
    } else if v[0] == '*' {
      MatchGlobsStar(v, tokens, s);
    } else {
      assert (Globs(v) + tokens)[1..] == Globs(v[1..]) + tokens;
      if s != "" && s[0] == v[0] {
        MatchGlobs(v[1..], tokens, s[1..]);
        GlobThenLit(v, tokens, s);
      }
    }
  }

  lemma GlobThenLit(v: string, tokens: seq<Token>, s: string)
    requires v != "" && v[0] != '*' && s != "" && s[0] == v[0]
    ensures GlobThen(v, tokens, s) <==> GlobThen(v[1..], tokens, s[1..])
  {
    if GlobThen(v, tokens, s) {
      var k :| 0 <= k <= |s| && Glob(v, s[..k]) && Matches(tokens, s[k..]);
      assert s[..k][1..] == s[1..][..k - 1] && s[1..][k - 1..] == s[k..];
    }
    if GlobThen(v[1..], tokens, s[1..]) {
      var k :| 0 <= k <= |s| - 1 && Glob(v[1..], s[1..][..k]) && Matches(tokens, s[1..][k..]);
      assert s[..k + 1][1..] == s[1..][..k] && s[1..][k..] == s[k + 1..];
      assert Glob(v, s[..k + 1]);
    }
  }

  lemma {:induction false} MatchGlobsStar(v: string, tokens: seq<Token>, s: string)
    requires OneLine(s) && v != "" && v[0] == '*'
    ensures Matches(Globs(v) + tokens, s) <==> GlobThen(v, tokens, s)
    decreases |v|, 0
  {
    var rest := Globs(v[1..]) + tokens;
    assert Globs(v) + tokens == [AnyStar] + rest;
    MatchStar(rest, s);
    forall i | 0 <= i <= |s|
      ensures Matches(rest, s[i..]) <==> GlobThen(v[1..], tokens, s[i..])
    {
      MatchGlobs(v[1..], tokens, s[i..]);
    }
    if i :| 0 <= i <= |s| && GlobThen(v[1..], tokens, s[i..]) {
      StarSkips(v, tokens, s, i);
    }
    if GlobThen(v, tokens, s) {
      var i := StarStops(v, tokens, s);
    }
  }

  lemma StarSkips(v: string, tokens: seq<Token>, s: string, i: nat)
    requires v != "" && v[0] == '*' && i <= |s| && GlobThen(v[1..], tokens, s[i..])
    ensures GlobThen(v, tokens, s)
  {
    var k :| 0 <= k <= |s| - i && Glob(v[1..], s[i..][..k]) && Matches(tokens, s[i..][k..]);
    assert s[i..][..k] == s[..i + k][i..] && s[i..][k..] == s[i + k..];
    assert Glob(v, s[..i + k]);
  }

  lemma StarStops(v: string, tokens: seq<Token>, s: string) returns (i: nat)
    requires v != "" && v[0] == '*' && GlobThen(v, tokens, s)
    ensures i <= |s| && GlobThen(v[1..], tokens, s[i..])
  {
    var k :| 0 <= k <= |s| && Glob(v, s[..k]) && Matches(tokens, s[k..]);
    i :| 0 <= i <= k && Glob(v[1..], s[..k][i..]);
    assert s[i..][..k - i] == s[..k][i..] && s[i..][k - i..] == s[k..];
  }
}
