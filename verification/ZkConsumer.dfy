/**
  * GetServices of the consumer registry (registry/zk/consumer.go), whose answer seeds the cache.
  */
module ZkConsumer {
  import opened ServiceRegistry
  import opened ServiceCache
  import opened ZkWatch

  type ByLocation = map<string, ServiceURL>

  /** One node. The presence test looks up the query parameter named like the location, not the
      location. */
  function SelectOne(conf: ServiceConfig, parse: Parser, m: ByLocation, n: string): ByLocation {
    if !Compatible(conf, parse, n) then m
    else
      var u := parse(n).value;
      if u.Get(u.location) in m then m else m[u.location := u]
  }

  function Select(conf: ServiceConfig, parse: Parser, nodes: seq<string>): ByLocation
    decreases |nodes|
  {
    if nodes == [] then map[] else SelectOne(conf, parse, Select(conf, parse, nodes[..|nodes| - 1]), nodes[|nodes| - 1])
  }

  /** A URL that may be selected for a location: compatible, from a listed node, and at that location. */
  predicate Sound(conf: ServiceConfig, parse: Parser, nodes: seq<string>, l: string, u: ServiceURL) {
    u.location == l && u.primitive in nodes && parse(u.primitive) == Some(u) && conf.ServiceEqual(u)
  }

  lemma {:induction false} SelectSound(conf: ServiceConfig, parse: Parser, nodes: seq<string>)
    requires KeepsName(parse)
    ensures forall l | l in Select(conf, parse, nodes) :: Sound(conf, parse, nodes, l, Select(conf, parse, nodes)[l])
    decreases |nodes|
  {
    if nodes != [] {
      var before, n := nodes[..|nodes| - 1], nodes[|nodes| - 1];
      var m, m' := Select(conf, parse, before), Select(conf, parse, nodes);
      SelectSound(conf, parse, before);
      assert nodes == before + [n];
      forall l | l in m' ensures Sound(conf, parse, nodes, l, m'[l]) {
        if l in m && m'[l] == m[l] {
          assert Sound(conf, parse, before, l, m[l]);
        } else {
          assert Compatible(conf, parse, n) && m'[l] == parse(n).value;
        }
      }
    }
  }

  /** The last compatible node of a location represents it if and only if the query parameter named
      like the location does not hold the location of a URL selected before. */
  lemma {:induction false} SelectExact(conf: ServiceConfig, parse: Parser, nodes: seq<string>, i: nat)
    requires KeepsName(parse) && (forall j, k | 0 <= j < k < |nodes| :: nodes[j] != nodes[k])
    requires i < |nodes| && Compatible(conf, parse, nodes[i])
    requires forall j | i < j < |nodes| && Compatible(conf, parse, nodes[j]) :: parse(nodes[j]).value.location != parse(nodes[i]).value.location
    ensures var m, u := Select(conf, parse, nodes), parse(nodes[i]).value;
            u.location in m && m[u.location] == u <==> u.Get(u.location) !in Select(conf, parse, nodes[..i])
    decreases |nodes|
  {
    var before := nodes[..|nodes| - 1];
    if i < |before| {
      assert before[i] == nodes[i] && before[..i] == nodes[..i];
      SelectExact(conf, parse, before, i);
    } else {
      SelectSound(conf, parse, before);
      assert nodes[..i] == before && forall j | 0 <= j < |before| :: before[j] == nodes[j];
      assert nodes[i] !in before;
    }
  }

  /** This node was put into the map when it was listed, or one of the times it was. */
  predicate Stored(conf: ServiceConfig, parse: Parser, nodes: seq<string>, n: string)
    requires parse(n).Some?
  {
    exists i :: 0 <= i < |nodes| && nodes[i] == n && parse(n).value.Get(parse(n).value.location) !in Select(conf, parse, nodes[..i])
  }

  lemma StoredMore(conf: ServiceConfig, parse: Parser, nodes: seq<string>, x: string, n: string)
    requires parse(n).Some?
    ensures Stored(conf, parse, nodes + [x], n) <==>
            Stored(conf, parse, nodes, n) || (x == n && parse(n).value.Get(parse(n).value.location) !in Select(conf, parse, nodes))
  {
    var q, more := parse(n).value.Get(parse(n).value.location), nodes + [x];
    forall i | 0 <= i <= |nodes| ensures more[..i] == nodes[..i] {
    }
    assert nodes[..|nodes|] == nodes;
    if i :| 0 <= i < |nodes| && nodes[i] == n && q !in Select(conf, parse, nodes[..i]) {
      assert more[i] == n;
    }
    if x == n && q !in Select(conf, parse, nodes) {
      assert more[|nodes|] == n && more[..|nodes|] == nodes;
    }
  }

  /** A compatible node alone at its location represents it if and only if it was stored. */
  lemma {:induction false} StoredExact(conf: ServiceConfig, parse: Parser, nodes: seq<string>, n: string)
    requires KeepsName(parse) && n in nodes && Compatible(conf, parse, n)
    requires forall o | o in nodes && o != n && Compatible(conf, parse, o) :: parse(o).value.location != parse(n).value.location
    ensures var m, u := Select(conf, parse, nodes), parse(n).value;
            u.location in m && m[u.location] == u <==> Stored(conf, parse, nodes, n)
    decreases |nodes|
  {
    var before, x := nodes[..|nodes| - 1], nodes[|nodes| - 1];
    assert nodes == before + [x];
    StoredMore(conf, parse, before, x, n);
    if n in before {
      StoredExact(conf, parse, before, n);
    } else {
      SelectSound(conf, parse, before);
      assert !Stored(conf, parse, before, n);
    }
  }

  /** No compatible node is passed over because of a query parameter. */
  ghost predicate Unshadowed(conf: ServiceConfig, parse: Parser, nodes: seq<string>) {
    forall n, o | n in nodes && o in nodes && Compatible(conf, parse, n) && Compatible(conf, parse, o) ::
      parse(n).value.Get(parse(n).value.location) != parse(o).value.location
  }

  /** Then each location of a compatible node is represented, by the last such node. */
  lemma {:induction false} SelectComplete(conf: ServiceConfig, parse: Parser, nodes: seq<string>, i: nat)
    requires KeepsName(parse) && Unshadowed(conf, parse, nodes)
    requires i < |nodes| && Compatible(conf, parse, nodes[i])
    requires forall j | i < j < |nodes| && Compatible(conf, parse, nodes[j]) :: parse(nodes[j]).value.location != parse(nodes[i]).value.location
    ensures var m, u := Select(conf, parse, nodes), parse(nodes[i]).value;
            u.location in m && m[u.location] == u
    decreases |nodes|
  {
    var before, n := nodes[..|nodes| - 1], nodes[|nodes| - 1];
    SelectSound(conf, parse, before);
    assert nodes == before + [n];
    if i < |before| {
      assert before[i] == nodes[i];
      SelectComplete(conf, parse, before, i);
    } else if Compatible(conf, parse, n) {
      var m, q := Select(conf, parse, before), parse(n).value.Get(parse(n).value.location);
      if q in m {
        assert Sound(conf, parse, before, q, m[q]);
        assert m[q].primitive in nodes && Compatible(conf, parse, m[q].primitive);
      }
    }
  }

  /** The list returned holds each selected URL once, in the order in which the map is iterated. */
  ghost predicate Lists(us: seq<ServiceURL>, m: ByLocation) {
    && (forall i, j | 0 <= i < j < |us| :: us[i].location != us[j].location)
    && forall u :: u in us <==> u.location in m && m[u.location] == u
  }

  method GetServices(conf: ServiceConfig, parse: Parser, nodes: seq<string>) returns (services: seq<ServiceURL>)
    requires KeepsName(parse)
    ensures Lists(services, Select(conf, parse, nodes))
  {
    var serviceMap: ByLocation := map[];
    for i := 0 to |nodes|
      invariant serviceMap == Select(conf, parse, nodes[..i])
    {
      assert nodes[..i + 1][..i] == nodes[..i];
      var n := nodes[i];
      if parse(n).None? {
        continue;
      }
      var u := parse(n).value;
      if !conf.ServiceEqual(u) {
        continue;
      }
      if u.Get(u.location) !in serviceMap {
        serviceMap := serviceMap[u.location := u];
      }
    }
    assert nodes[..|nodes|] == nodes;
    SelectSound(conf, parse, nodes);
    services := ListValues(serviceMap);
  }

  /** The second loop, over the map in an order of the runtime's choosing. */
  method ListValues(serviceMap: ByLocation) returns (services: seq<ServiceURL>)
    requires forall l | l in serviceMap :: serviceMap[l].location == l
    ensures Lists(services, serviceMap)
  {
    services := [];
    var left := serviceMap.Keys;
    while left != {}
      invariant left <= serviceMap.Keys
      invariant forall i, j | 0 <= i < j < |services| :: services[i].location != services[j].location
      invariant forall u :: u in services <==> u.location in serviceMap.Keys - left && serviceMap[u.location] == u
      decreases |left|
    {
      var l :| l in left;
      left := left - {l};
      services := services + [serviceMap[l]];
    }
  }

  /** The answer meets what the cache asks of a list: distinct locations give distinct node names, and
      every URL has the key of the configuration. */
  lemma AnswerFitsCache(conf: ServiceConfig, parse: Parser, nodes: seq<string>, us: seq<ServiceURL>, view: View)
    requires KeepsName(parse) && Lists(us, Select(conf, parse, nodes)) && ViewOK(view)
    ensures ViewOK(view[conf.Key() := us])
  {
    forall i | 0 <= i < |us|
      ensures parse(us[i].primitive) == Some(us[i]) && KeyOf(us[i]) == conf.Key()
    {
      assert us[i] in us;
      Selected(conf, parse, nodes, us, us[i]);
    }
  }

  lemma Selected(conf: ServiceConfig, parse: Parser, nodes: seq<string>, us: seq<ServiceURL>, u: ServiceURL)
    requires KeepsName(parse) && Lists(us, Select(conf, parse, nodes)) && u in us
    ensures u.primitive in nodes && parse(u.primitive) == Some(u) && conf.ServiceEqual(u) && KeyOf(u) == conf.Key()
  {
    SelectSound(conf, parse, nodes);
    assert Select(conf, parse, nodes)[u.location] == u;
    CompatibleKey(conf, parse, u.primitive);
  }

  /** No two compatible nodes share a location. */
  ghost predicate Unshared(conf: ServiceConfig, parse: Parser, nodes: seq<string>) {
    forall n, o | n in nodes && o in nodes && n != o && Compatible(conf, parse, n) && Compatible(conf, parse, o) ::
      parse(n).value.location != parse(o).value.location
  }

  /** A refreshed cache holds exactly the compatible nodes if and only if no two of them share a
      location, of which one alone would be kept, and none is passed over because the query parameter
      named like its location holds a location selected before. */
  lemma SeedExact(conf: ServiceConfig, parse: Parser, nodes: seq<string>, us: seq<ServiceURL>, view: View)
    requires KeepsName(parse) && Lists(us, Select(conf, parse, nodes)) && ViewOK(view)
    ensures Holds(view[conf.Key() := us], conf, parse, nodes) <==>
            && Unshared(conf, parse, nodes)
            && forall n | n in nodes && Compatible(conf, parse, n) :: Stored(conf, parse, nodes, n)
  {
    var after := view[conf.Key() := us];
    AnswerFitsCache(conf, parse, nodes, us, view);
    assert after[conf.Key()] == us;
    if Unshared(conf, parse, nodes) {
      forall p | Compatible(conf, parse, p)
        ensures Find(us, p) == (if p in nodes then parse(p) else None) <==> (p in nodes ==> Stored(conf, parse, nodes, p))
      {
        if p in nodes {
          StoredExact(conf, parse, nodes, p);
          FindMember(us, parse(p).value);
        } else if Find(us, p).Some? {
          Selected(conf, parse, nodes, us, Find(us, p).value);
        }
      }
    } else {
      var n, o :| n in nodes && o in nodes && n != o && Compatible(conf, parse, n) && Compatible(conf, parse, o)
                  && parse(n).value.location == parse(o).value.location;
      OneOfTwo(us, Select(conf, parse, nodes), parse(n).value, parse(o).value);
    }
  }

  /** A URL without a host is at the location "", and so is every missing query parameter: once one is
      selected, a URL that has no parameter named like its location is passed over. */
  lemma HostlessShadows(conf: ServiceConfig, parse: Parser, a: string, b: string)
    requires Compatible(conf, parse, a) && Compatible(conf, parse, b)
    requires parse(a).value.location == "" && parse(b).value.location !in parse(b).value.query
    ensures Select(conf, parse, [a, b]) == map["" := parse(a).value]
    ensures a != b && KeepsName(parse) ==> !Stored(conf, parse, [a, b], b)
  {
    assert [a, b][..1] == [a] && [a][..0] == [];
    assert Select(conf, parse, [a]) == map["" := parse(a).value];
    assert Select(conf, parse, [a, b]) == SelectOne(conf, parse, Select(conf, parse, [a]), b);
  }

  /** The life of a cache entry: seeded from one listing of the directory and then fed with the
      watcher's events, it ends with exactly the compatible nodes of the last listing. */
  lemma SeededRun(conf: ServiceConfig, parse: Parser, nodes: seq<string>, us: seq<ServiceURL>, view: View, rounds: seq<Round>)
    requires KeepsName(parse) && Lists(us, Select(conf, parse, nodes)) && ViewOK(view)
    requires Unshared(conf, parse, nodes) && forall n | n in nodes && Compatible(conf, parse, n) :: Stored(conf, parse, nodes, n)
    requires Chained(conf, parse, nodes, rounds)
    ensures var end := Fed(view[conf.Key() := us], rounds);
            ViewOK(end) && Holds(end, conf, parse, Final(nodes, rounds))
  {
    AnswerFitsCache(conf, parse, nodes, us, view);
    SeedExact(conf, parse, nodes, us, view);
    RunConverges(view[conf.Key() := us], conf, parse, nodes, rounds);
  }

  lemma OneOfTwo(us: seq<ServiceURL>, m: ByLocation, u: ServiceURL, v: ServiceURL)
    requires Lists(us, m) && u.location == v.location && u != v
    ensures Find(us, u.primitive) != Some(u) || Find(us, v.primitive) != Some(v)
  {
    assert u !in us || v !in us;
  }
}
