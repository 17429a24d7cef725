/**
  * Service URLs and configurations (registry/service_url.go, registry/config.go), and the events
  * about them.
  */
module ServiceRegistry {
  datatype Option<T> = None | Some(value: T)

  /** A parsed provider URL; `primitive` is the node name it was parsed from. Ip, port, path and
      weight play no part in selection. */
  datatype ServiceURL = ServiceURL(primitive: string, protocol: string, location: string, query: map<string, string>)
  {
    function Get(key: string): string {
      if key in query then query[key] else ""
    }

    /** The configuration a URL belongs to. */
    function Config(): ServiceConfig {
      ServiceConfig(protocol, Get("interface"), Get("group"), Get("version"))
    }
  }

  datatype ServiceConfig = ServiceConfig(protocol: string, service: string, group: string, version: string)
  {
    /** Group and version are not part of the key, so several configurations share one. */
    function Key(): string {
      service + "@" + protocol
    }

    predicate ServiceEqual(u: ServiceURL) {
      && protocol == u.protocol
      && service == u.Get("interface")
      && group == u.Get("group")
      && version == u.Get("version")
    }
  }

  function KeyOf(u: ServiceURL): string {
    u.Config().Key()
  }

  /** A URL's key, from its parts. */
  lemma KeyOfParts(u: ServiceURL)
    ensures KeyOf(u) == (if "interface" in u.query then u.query["interface"] else "") + "@" + u.protocol
  {
  }

  /** Among protocols without an at sign, two configurations have one key if and only if they have one
      service and one protocol. */
  lemma KeyExact(p: ServiceConfig, q: ServiceConfig)
    requires '@' !in p.protocol && '@' !in q.protocol
    ensures p.Key() == q.Key() <==> p.service == q.service && p.protocol == q.protocol
  {
    assert p.Key() == p.service + "@" + p.protocol && q.Key() == q.service + "@" + q.protocol;
    JoinExact(p.service, p.protocol, q.service, q.protocol);
  }

  lemma JoinExact(a: string, b: string, c: string, d: string)
    requires '@' !in b && '@' !in d
    ensures a + "@" + b == c + "@" + d <==> a == c && b == d
  {
    var s, t := a + "@" + b, c + "@" + d;
    if s == t {
      assert s[|a|] == '@' && t[|c|] == '@';
      assert forall i | |a| < i < |s| :: s[i] == b[i - |a| - 1];
      assert forall i | |c| < i < |t| :: t[i] == d[i - |c| - 1];
      assert |a| == |c|;
      assert a == s[..|a|] && c == t[..|c|] && b == s[|a| + 1..] && d == t[|c| + 1..];
    }
  }

  /** With an at sign in the protocol they may share one all the same. */
  lemma KeyCollision()
    ensures ServiceConfig("b@c", "a", "", "").Key() == ServiceConfig("c", "a@b", "", "").Key()
  {
  }

  /** A configuration accepts a URL if and only if all four fields are equal, a missing parameter being
      the empty string. */
  lemma ServiceEqualExact(conf: ServiceConfig, u: ServiceURL)
    ensures conf.ServiceEqual(u) <==>
            && u.protocol == conf.protocol
            && (if "interface" in u.query then u.query["interface"] else "") == conf.service
            && (if "group" in u.query then u.query["group"] else "") == conf.group
            && (if "version" in u.query then u.query["version"] else "") == conf.version
  {
  }

  /** `NewServiceURL` on node names: a partial function that keeps the name in the result. */
  type Parser = string -> Option<ServiceURL>

  ghost predicate KeepsName(parse: Parser) {
    forall n :: parse(n).Some? ==> parse(n).value.primitive == n
  }

  datatype Action = Add | Del | Update

  datatype Event = Event(action: Action, url: ServiceURL)

  /** The nodes that a configuration accepts. */
  predicate Compatible(conf: ServiceConfig, parse: Parser, node: string) {
    parse(node).Some? && conf.ServiceEqual(parse(node).value)
  }

  /** A node is compatible if and only if it parses and its URL has the configuration's four fields. */
  lemma CompatibleExact(conf: ServiceConfig, parse: Parser, node: string)
    ensures Compatible(conf, parse, node) <==>
            && parse(node).Some?
            && var u := parse(node).value;
            && u.protocol == conf.protocol
            && (if "interface" in u.query then u.query["interface"] else "") == conf.service
            && (if "group" in u.query then u.query["group"] else "") == conf.group
            && (if "version" in u.query then u.query["version"] else "") == conf.version
  {
  }

  lemma CompatibleKey(conf: ServiceConfig, parse: Parser, node: string)
    requires Compatible(conf, parse, node)
    ensures parse(node).value.Config() == conf && KeyOf(parse(node).value) == conf.Key()
  {
  }

  /** The first entry with this node name. */
  function Find(us: seq<ServiceURL>, p: string): (r: Option<ServiceURL>)
    ensures r.Some? ==> r.value in us && r.value.primitive == p
    ensures r.None? <==> forall u | u in us :: u.primitive != p
  {
    if us == [] then None
    else if us[0].primitive == p then Some(us[0])
    else Find(us[1..], p)
  }

  predicate Distinct(us: seq<ServiceURL>) {
    forall i, j | 0 <= i < j < |us| :: us[i].primitive != us[j].primitive
  }

  /** In a list without repeated node names, membership is what Find reports. */
  lemma {:induction false} FindMember(us: seq<ServiceURL>, u: ServiceURL)
    requires Distinct(us)
    ensures u in us <==> Find(us, u.primitive) == Some(u)
  {
    if us != [] {
      FindMember(us[1..], u);
      forall j | 1 <= j < |us| ensures us[j].primitive != us[0].primitive {
      }
    }
  }
}
