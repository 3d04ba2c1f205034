/**
  Text building blocks shared by the models: decimal rendering (Go's `%d` and `strconv.Itoa`),
  prefix tests, splitting at a separator, and the facts that make joined names decodable.
 */
module Text {

  /** Go's decimal rendering of a non-negative integer. */
  function Itoa(n: nat): (s: string)
    ensures |s| > 0
    ensures forall c :: c in s ==> '0' <= c <= '9'
  {
    if n < 10 then [Digit(n)] else Itoa(n / 10) + [Digit(n % 10)]
  }

  function Digit(d: nat): (c: char)
    requires d < 10
    ensures '0' <= c <= '9' && c as int == '0' as int + d
  {
    ('0' as int + d) as char
  }

  predicate HasPrefix(s: string, prefix: string) {
    prefix <= s
  }

  predicate HasSuffix(s: string, suffix: string) {
    |suffix| <= |s| && s[|s| - |suffix|..] == suffix
  }

  predicate Contains(s: string, sub: string) {
    HasPrefix(s, sub) || (s != "" && Contains(s[1..], sub))
  }

  /** Go's `strings.Split(s, string(sep))`: never empty, `n` separators give `n + 1` parts. */
  function Split(s: string, sep: char): (parts: seq<string>)
    ensures |parts| > 0
  {
    if s == "" then [""]
    else if s[0] == sep then [""] + Split(s[1..], sep)
    else
      var rest := Split(s[1..], sep);
      [[s[0]] + rest[0]] + rest[1..]
  }

  lemma {:induction false} ContainsAt(s: string, i: nat, sub: string)
    requires i <= |s| && HasPrefix(s[i..], sub)
    ensures Contains(s, sub)
  {
    if i > 0 {
      assert s[1..][i - 1..] == s[i..];
      ContainsAt(s[1..], i - 1, sub);
    } else {
      assert s[0..] == s;
    }
  }

  predicate IsDecimal(s: string) {
    forall i :: 0 <= i < |s| ==> '0' <= s[i] <= '9'
  }

  /** The number that decimal digits stand for. */
  function Value(s: string): nat
    requires IsDecimal(s)
  {
    if s == "" then 0 else 10 * Value(s[..|s| - 1]) + (s[|s| - 1] as int - '0' as int)
  }

  /** The rendering stands for its number, and has no leading zero. */
  lemma {:induction false} ItoaReads(n: nat)
    ensures IsDecimal(Itoa(n)) && Value(Itoa(n)) == n
    ensures n == 0 || Itoa(n)[0] != '0'
  {
    var s := Itoa(n);
    if n < 10 {
      assert s[..0] == "";
    } else {
      ItoaReads(n / 10);
      assert s[..|s| - 1] == Itoa(n / 10) && s[|s| - 1] == Digit(n % 10);
    }
  }

  /** Different numbers have different decimal renderings. */
  lemma ItoaInjective(m: nat, n: nat)
    requires Itoa(m) == Itoa(n)
    ensures m == n
  {
    ItoaReads(m);
    ItoaReads(n);
  }

  /** A string cut at its last separator can be cut in only one way. */
  lemma CutAtLast(a: string, b: string, a': string, b': string, sep: char)
    requires a + [sep] + b == a' + [sep] + b'
    requires sep !in b && sep !in b'
    ensures a == a' && b == b'
  {
    var s := a + [sep] + b;
    assert s[|a|] == sep && s[|a'|] == sep;
    assert forall i :: |a| < i < |s| ==> s[i] == b[i - |a| - 1];
    assert forall i :: |a'| < i < |s| ==> s[i] == b'[i - |a'| - 1];
    assert s[..|a|] == a && s[..|a'|] == a';
    assert s[|a| + 1..] == b && s[|a'| + 1..] == b';
  }

  /** The same for a number after the separator, the commonest shape of a generated name. */
  lemma CutNumber(a: string, m: nat, a': string, n: nat, sep: char)
    requires a + [sep] + Itoa(m) == a' + [sep] + Itoa(n)
    requires !('0' <= sep <= '9')
    ensures a == a' && m == n
  {
    CutAtLast(a, Itoa(m), a', Itoa(n), sep);
    ItoaInjective(m, n);
  }
}
