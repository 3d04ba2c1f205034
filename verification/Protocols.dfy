/** Port names and the protocols they announce, and fully qualified host names. */
module Protocols {
  import opened Text

  datatype Instance = Dubbo | Thrift | Mongo | Redis | MySQL | Kafka | Zookeeper | MetaProtocol | Custom(name: string) | Unsupported

  /** The protocols registered when the program starts; others can be added. */
  const BUILT_IN: map<string, Instance> :=
    map["dubbo" := Dubbo, "thrift" := Thrift, "mongo" := Mongo, "redis" := Redis,
        "mysql" := MySQL, "kafka" := Kafka, "zookeeper" := Zookeeper, "metaprotocol" := MetaProtocol]

  function ToLower(s: string): string {
    if s == "" then ""
    else [if 'A' <= s[0] <= 'Z' then (s[0] as int + 32) as char else s[0]] + ToLower(s[1..])
  }

  function Parse(protocols: map<string, Instance>, s: string): Instance {
    if ToLower(s) in protocols then protocols[ToLower(s)] else Unsupported
  }

  /** The second part of a dash-separated port name. */
  function Layer7(protocols: map<string, Instance>, portName: string): Instance {
    var parts := Split(portName, '-');
    if |parts| > 1 then Parse(protocols, parts[1]) else Unsupported
  }

  function FQDN(name: string, ns: string): string {
    if '.' in name then name else name + "." + ns + ".svc.cluster.local"
  }

  predicate IsFQDNEquals(name: string, ns: string, name': string, ns': string) {
    FQDN(name, ns) == FQDN(name', ns')
  }

  /** Which names are the same host: dotted ones if they are the same string, dot-free ones if names and
      namespaces are the same, and a dot-free one and a dotted one if the latter is the former in its
      namespace of the cluster domain. */
  lemma SameHostIff(name: string, ns: string, name': string, ns': string)
    ensures '.' in name && '.' in name' ==> (IsFQDNEquals(name, ns, name', ns') <==> name == name')
    ensures '.' !in name && '.' !in name' ==> (IsFQDNEquals(name, ns, name', ns') <==> name == name' && ns == ns')
    ensures '.' !in name && '.' in name' ==> (IsFQDNEquals(name, ns, name', ns') <==> name' == name + "." + ns + ".svc.cluster.local")
    ensures '.' in name && '.' !in name' ==> (IsFQDNEquals(name, ns, name', ns') <==> name == name' + "." + ns' + ".svc.cluster.local")
  {
    if '.' !in name && '.' !in name' && IsFQDNEquals(name, ns, name', ns') {
      CutDomain(name, ns, name', ns', ".svc.cluster.local");
    }
  }

  lemma CutDomain(a: string, b: string, a': string, b': string, domain: string)
    requires '.' !in a && '.' !in a' && a + "." + b + domain == a' + "." + b' + domain
    ensures a == a' && b == b'
  {
    var s := a + "." + b + domain;
    assert s[|a|] == '.' && s[|a'|] == '.';
    assert forall i :: 0 <= i < |a| ==> s[i] == a[i] && a[i] in a;
    assert forall i :: 0 <= i < |a'| ==> s[i] == a'[i] && a'[i] in a';
    assert |a| == |a'|;
    assert s[..|a|] == a && s[..|a'|] == a';
    assert s[|a| + 1..][..|b|] == b && s[|a'| + 1..][..|b'|] == b';
  }

  lemma {:induction false} NoSeparator(s: string, sep: char)
    requires sep !in s
    ensures Split(s, sep) == [s]
  {
    if s != "" {
      assert s[0] in s;
      NoSeparator(s[1..], sep);
      assert [s[0]] + s[1..] == s;
    }
  }

  /** The same letters, the second in lower case. */
  predicate InLowerCase(s: string, key: string) {
    && |s| == |key|
    && forall i :: 0 <= i < |s| ==>
         if 'A' <= s[i] <= 'Z' then key[i] as int - 'a' as int == s[i] as int - 'A' as int else key[i] == s[i]
  }

  lemma {:induction false} ToLowerIff(s: string, key: string)
    ensures ToLower(s) == key <==> InLowerCase(s, key)
  {
    if s != "" && key != "" {
      ToLowerIff(s[1..], key[1..]);
      assert s == [s[0]] + s[1..] && key == [key[0]] + key[1..];
    }
  }

  lemma {:induction false} SplitFirst(a: string, rest: string, sep: char)
    requires sep !in a
    ensures Split(a + ([sep] + rest), sep) == [a] + Split(rest, sep)
  {
    var s := a + ([sep] + rest);
    if a == "" {
      assert s[0] == sep && s[1..] == rest;
    } else {
      assert s[0] == a[0] && a[0] in a && s[1..] == a[1..] + ([sep] + rest);
      SplitFirst(a[1..], rest, sep);
      assert [a[0]] + a[1..] == a;
    }
  }

  /** A part of a port name announces the registered protocol that is the part in lower case. */
  predicate Announces(protocols: map<string, Instance>, part: string, p: Instance) {
    if exists key :: key in protocols && InLowerCase(part, key)
    then exists key :: key in protocols && InLowerCase(part, key) && protocols[key] == p
    else p == Unsupported
  }

  lemma LowerCaseAnnounces(protocols: map<string, Instance>, key: string)
    requires key in protocols && forall i :: 0 <= i < |key| ==> !('A' <= key[i] <= 'Z')
    ensures Announces(protocols, key, protocols[key])
  {
    assert InLowerCase(key, key);
  }

  lemma ParseIff(protocols: map<string, Instance>, part: string, p: Instance)
    ensures Parse(protocols, part) == p <==> Announces(protocols, part, p)
  {
    ToLowerIff(part, ToLower(part));
    forall key | key in protocols && InLowerCase(part, key)
      ensures key == ToLower(part)
    {
      ToLowerIff(part, key);
    }
  }

  /** A port name of two dash-free parts announces what the second does, whatever the first. */
  lemma TwoPartName(protocols: map<string, Instance>, transport: string, protocol: string, p: Instance)
    requires '-' !in transport && '-' !in protocol
    ensures Layer7(protocols, transport + ("-" + protocol)) == p <==> Announces(protocols, protocol, p)
  {
    SplitFirst(transport, protocol, '-');
    NoSeparator(protocol, '-');
    ParseIff(protocols, protocol, p);
  }

  /** So does a port name of three dash-free parts, whose third is its application protocol. */
  lemma ThreePartName(protocols: map<string, Instance>, transport: string, protocol: string, application: string, p: Instance)
    requires '-' !in transport && '-' !in protocol && '-' !in application
    ensures var name := transport + ("-" + (protocol + ("-" + application)));
            Split(name, '-') == [transport, protocol, application] && (Layer7(protocols, name) == p <==> Announces(protocols, protocol, p))
  {
    SplitFirst(transport, protocol + ("-" + application), '-');
    SplitFirst(protocol, application, '-');
    NoSeparator(application, '-');
    ParseIff(protocols, protocol, p);
  }

  /** A name without a dash announces nothing. */
  lemma OnePartName(protocols: map<string, Instance>, name: string)
    requires '-' !in name
    ensures Layer7(protocols, name) == Unsupported
  {
    NoSeparator(name, '-');
  }
}
