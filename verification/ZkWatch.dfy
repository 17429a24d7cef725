/**
  * The ZooKeeper watcher's diff of child lists into events (registry/zk/watch.go), and what a cache
  * fed with them holds.
  */
module ZkWatch {
  import opened ServiceRegistry
  import opened ServiceCache

  /** The events of new nodes; unparsable and incompatible ones are passed over. */
  function AddEvents(conf: ServiceConfig, parse: Parser, children: seq<string>, nodes: seq<string>): seq<Event> {
    if nodes == [] then []
    else
      var others := AddEvents(conf, parse, children, nodes[1..]);
      var n := nodes[0];
      if n !in children && Compatible(conf, parse, n) then [Event(Add, parse(n).value)] + others else others
  }

  datatype Handled = Handled(events: seq<Event>, panicked: bool)

  /** The events of vanished nodes. The configuration is compared before the parse error is looked
      at, so a vanished node that does not parse is a nil dereference. */
  function DelEvents(conf: ServiceConfig, parse: Parser, gone: seq<string>, newChildren: seq<string>): Handled {
    if gone == [] then Handled([], false)
    else
      var n := gone[0];
      if n in newChildren then DelEvents(conf, parse, gone[1..], newChildren)
      else if parse(n).None? then Handled([], true)
      else
        var others := DelEvents(conf, parse, gone[1..], newChildren);
        if conf.ServiceEqual(parse(n).value) then Handled([Event(Del, parse(n).value)] + others.events, others.panicked)
        else others
  }

  /** handleZkNodeEvent: additions first, then deletions; nothing when the new children cannot be
      read, which includes their being none. */
  function Diff(conf: ServiceConfig, parse: Parser, children: seq<string>, answer: Option<seq<string>>): Handled {
    match answer
    case None => Handled([], false)
    case Some(newChildren) =>
      var dels := DelEvents(conf, parse, children, newChildren);
      Handled(AddEvents(conf, parse, children, newChildren) + dels.events, dels.panicked)
  }

  lemma {:induction false} AddEventsExact(conf: ServiceConfig, parse: Parser, children: seq<string>, nodes: seq<string>)
    ensures forall ev :: ev in AddEvents(conf, parse, children, nodes) <==>
                         ev.action.Add? && exists n :: n in nodes && n !in children && Compatible(conf, parse, n) && ev.url == parse(n).value
    decreases |nodes|
  {
    if nodes != [] {
      AddEventsExact(conf, parse, children, nodes[1..]);
      var es := AddEvents(conf, parse, children, nodes);
      forall ev ensures ev in es <==>
                        ev.action.Add? && exists n :: n in nodes && n !in children && Compatible(conf, parse, n) && ev.url == parse(n).value
      {
        if n :| n in nodes && n !in children && Compatible(conf, parse, n) && ev.url == parse(n).value {
          assert n == nodes[0] || n in nodes[1..];
        }
      }
    }
  }

  /** The diff dereferences nil exactly when some vanished node does not parse; otherwise it deletes
      exactly the vanished compatible nodes. */
  lemma {:induction false} DelEventsExact(conf: ServiceConfig, parse: Parser, gone: seq<string>, newChildren: seq<string>)
    ensures var d := DelEvents(conf, parse, gone, newChildren);
            && (d.panicked <==> exists n :: n in gone && n !in newChildren && parse(n).None?)
            && (!d.panicked ==> forall ev :: ev in d.events <==>
                                             ev.action.Del? && exists n :: n in gone && n !in newChildren && Compatible(conf, parse, n) && ev.url == parse(n).value)
    decreases |gone|
  {
    if gone != [] {
      DelEventsExact(conf, parse, gone[1..], newChildren);
      var d := DelEvents(conf, parse, gone, newChildren);
      assert forall n :: n in gone <==> n == gone[0] || n in gone[1..];
      if !d.panicked {
        forall ev ensures ev in d.events <==>
                          ev.action.Del? && exists n :: n in gone && n !in newChildren && Compatible(conf, parse, n) && ev.url == parse(n).value
        {
        }
      }
    }
  }

  /** The diff node by node: an add is sent for a new node, and a delete for a vanished one, if and only
      if its protocol and its interface, group and version parameters are those of the configuration. */
  lemma EventsByField(conf: ServiceConfig, parse: Parser, children: seq<string>, newChildren: seq<string>, n: string)
    requires KeepsName(parse) && parse(n).Some?
    ensures var d, u := Diff(conf, parse, children, Some(newChildren)), parse(n).value;
            var meant := && u.protocol == conf.protocol
                         && (if "interface" in u.query then u.query["interface"] else "") == conf.service
                         && (if "group" in u.query then u.query["group"] else "") == conf.group
                         && (if "version" in u.query then u.query["version"] else "") == conf.version;
            && (Event(Add, u) in d.events <==> n in newChildren && n !in children && meant)
            && (!d.panicked ==> (Event(Del, u) in d.events <==> n in children && n !in newChildren && meant))
  {
    var u := parse(n).value;
    ServiceEqualExact(conf, u);
    AddEventsExact(conf, parse, children, newChildren);
    DelEventsExact(conf, parse, children, newChildren);
    AddsThenDels(conf, parse, children, newChildren);
    if o :| Compatible(conf, parse, o) && parse(o).value == u {
      assert o == n;
    }
  }

  /** All additions come before all deletions; nothing is sent when the children cannot be read. */
  lemma AddsThenDels(conf: ServiceConfig, parse: Parser, children: seq<string>, newChildren: seq<string>)
    ensures var d, adds := Diff(conf, parse, children, Some(newChildren)), AddEvents(conf, parse, children, newChildren);
            && |adds| <= |d.events| && d.events[..|adds|] == adds && d.events[|adds|..] == DelEvents(conf, parse, children, newChildren).events
            && (forall ev | ev in adds :: ev.action.Add?)
            && (forall ev | ev in d.events[|adds|..] :: ev.action.Del?)
    ensures Diff(conf, parse, children, None) == Handled([], false)
  {
    AddEventsExact(conf, parse, children, newChildren);
    DelsOnly(conf, parse, children, newChildren);
  }

  lemma {:induction false} DelsOnly(conf: ServiceConfig, parse: Parser, gone: seq<string>, newChildren: seq<string>)
    ensures forall ev | ev in DelEvents(conf, parse, gone, newChildren).events :: ev.action.Del?
    decreases |gone|
  {
    if gone != [] {
      DelsOnly(conf, parse, gone[1..], newChildren);
    }
  }

  /** The events follow the listings: those of a listing's parts, one after the other, and one for a
      node at most. */
  lemma {:induction false} AddsInOrder(conf: ServiceConfig, parse: Parser, children: seq<string>, a: seq<string>, b: seq<string>)
    ensures AddEvents(conf, parse, children, a + b) == AddEvents(conf, parse, children, a) + AddEvents(conf, parse, children, b)
    ensures |AddEvents(conf, parse, children, a)| <= |a|
    decreases |a|
  {
    if a == [] {
      assert [] + b == b;
    } else {
      assert (a + b)[0] == a[0] && (a + b)[1..] == a[1..] + b;
      AddsInOrder(conf, parse, children, a[1..], b);
    }
  }

  lemma {:induction false} DelsInOrder(conf: ServiceConfig, parse: Parser, a: seq<string>, b: seq<string>, newChildren: seq<string>)
    requires !DelEvents(conf, parse, a, newChildren).panicked
    ensures DelEvents(conf, parse, a + b, newChildren).events
         == DelEvents(conf, parse, a, newChildren).events + DelEvents(conf, parse, b, newChildren).events
    ensures |DelEvents(conf, parse, a, newChildren).events| <= |a|
    decreases |a|
  {
    if a == [] {
      assert [] + b == b;
    } else {
      assert (a + b)[0] == a[0] && (a + b)[1..] == a[1..] + b;
      DelsInOrder(conf, parse, a[1..], b, newChildren);
    }
  }

  /** `common.Contains`. */
  method Contains(s: seq<string>, e: string) returns (found: bool)
    ensures found <==> e in s
  {
    for i := 0 to |s|
      invariant e !in s[..i]
    {
      if s[i] == e {
        return true;
      }
    }
    assert s[..|s|] == s;
    found := false;
  }

  /** The event channel between watcher and selector, with what has been sent on it so far. */
  class Watcher {
    var events: seq<Event>

    constructor ()
      ensures events == []
    {
      events := [];
    }

    method SendAdds(conf: ServiceConfig, parse: Parser, children: seq<string>, newChildren: seq<string>)
      modifies this
      ensures events == old(events) + AddEvents(conf, parse, children, newChildren)
    {
      ghost var goal := events + AddEvents(conf, parse, children, newChildren);
      ghost var todo := newChildren;
      for i := 0 to |newChildren|
        invariant todo == newChildren[i..]
        invariant events + AddEvents(conf, parse, children, todo) == goal
      {
        var n := newChildren[i];
        assert n == todo[0];
        ghost var others := AddEvents(conf, parse, children, todo[1..]);
        todo := todo[1..];
        var known := Contains(children, n);
        if known || parse(n).None? || !conf.ServiceEqual(parse(n).value) {
          continue;
        }
        var ev := Event(Add, parse(n).value);
        Sent(events, ev, others);
        events := events + [ev];
      }
    }

    method SendDels(conf: ServiceConfig, parse: Parser, children: seq<string>, newChildren: seq<string>) returns (panicked: bool)
      modifies this
      ensures var d := DelEvents(conf, parse, children, newChildren);
              events == old(events) + d.events && panicked == d.panicked
    {
      ghost var d := DelEvents(conf, parse, children, newChildren);
      ghost var goal := events + d.events;
      ghost var todo := children;
      for i := 0 to |children|
        invariant todo == children[i..]
        invariant events + DelEvents(conf, parse, todo, newChildren).events == goal
        invariant DelEvents(conf, parse, todo, newChildren).panicked == d.panicked
      {
        var n := children[i];
        assert n == todo[0];
        ghost var others := DelEvents(conf, parse, todo[1..], newChildren).events;
        todo := todo[1..];
        var kept := Contains(newChildren, n);
        if kept {
          continue;
        }
        if parse(n).None? {
          return true;
        }
        if !conf.ServiceEqual(parse(n).value) {
          continue;
        }
        var ev := Event(Del, parse(n).value);
        Sent(events, ev, others);
        events := events + [ev];
      }
      panicked := false;
    }

    method HandleZkNodeEvent(conf: ServiceConfig, parse: Parser, children: seq<string>, answer: Option<seq<string>>)
      returns (panicked: bool)
      modifies this
      ensures var d := Diff(conf, parse, children, answer);
              events == old(events) + d.events && panicked == d.panicked
    {
      if answer.None? {
        return false;
      }
      SendAdds(conf, parse, children, answer.value);
      panicked := SendDels(conf, parse, children, answer.value);
    }
  }

  lemma Sent(events: seq<Event>, ev: Event, others: seq<Event>)
    ensures events + [ev] + others == events + ([ev] + others)
  {
  }

  // ----- Convergence -----

  /** For one configuration, the cache holds exactly the compatible nodes of `children`. */
  ghost predicate Holds(view: View, conf: ServiceConfig, parse: Parser, children: seq<string>) {
    forall p | Compatible(conf, parse, p) ::
      Find(At(view, conf.Key()), p) == if p in children then parse(p) else None
  }

  /** Events delivered while a directory goes from `children` to `newChildren`: all those of the diff,
      in any order and any number of times, mixed with deletes of absent nodes from the per-node
      watches and with anything about nodes of other configurations. */
  ghost predicate Delivers(evs: seq<Event>, conf: ServiceConfig, parse: Parser, children: seq<string>, newChildren: seq<string>) {
    var d := Diff(conf, parse, children, Some(newChildren));
    && !d.panicked
    && (forall ev | ev in d.events :: ev in evs)
    && forall ev | ev in evs ::
         && parse(ev.url.primitive) == Some(ev.url)
         && (conf.ServiceEqual(ev.url) ==> ev in d.events || (ev.action.Del? && ev.url.primitive !in newChildren))
  }

  lemma {:induction false} LastIsIn(evs: seq<Event>, key: string, p: string)
    ensures var l := Last(evs, key, p);
            && (l.Some? ==> l.value in evs && l.value.url.primitive == p && KeyOf(l.value.url) == key)
            && (l.None? ==> forall ev | ev in evs :: KeyOf(ev.url) != key || ev.url.primitive != p)
    decreases |evs|
  {
    if evs != [] {
      LastIsIn(evs[..|evs| - 1], key, p);
      assert evs == evs[..|evs| - 1] + [evs[|evs| - 1]];
    }
  }

  /** Fed with the events of a change, the cache goes from exactly the old compatible nodes to exactly
      the new ones, whatever the order of delivery. */
  lemma DiffConverges(view: View, conf: ServiceConfig, parse: Parser, children: seq<string>, newChildren: seq<string>, evs: seq<Event>)
    requires KeepsName(parse) && ViewOK(view) && Holds(view, conf, parse, children)
    requires Delivers(evs, conf, parse, children, newChildren)
    ensures ViewOK(UpdateAll(view, evs)) && Holds(UpdateAll(view, evs), conf, parse, newChildren)
  {
    LastWriterWins(view, evs);
    AddEventsExact(conf, parse, children, newChildren);
    DelEventsExact(conf, parse, children, newChildren);
    forall p | Compatible(conf, parse, p)
      ensures Find(At(UpdateAll(view, evs), conf.Key()), p) == if p in newChildren then parse(p) else None
    {
      NodeConverges(view, conf, parse, children, newChildren, evs, p);
    }
  }

  lemma NodeConverges(view: View, conf: ServiceConfig, parse: Parser, children: seq<string>, newChildren: seq<string>, evs: seq<Event>, p: string)
    requires KeepsName(parse) && Compatible(conf, parse, p)
    requires Find(At(view, conf.Key()), p) == if p in children then parse(p) else None
    requires Delivers(evs, conf, parse, children, newChildren)
    ensures var found := match Last(evs, conf.Key(), p)
              case None => Find(At(view, conf.Key()), p)
              case Some(ev) => if ev.action.Del? then None else Some(ev.url);
            found == if p in newChildren then parse(p) else None
  {
    var u := parse(p).value;
    var d := Diff(conf, parse, children, Some(newChildren));
    CompatibleKey(conf, parse, p);
    LastIsIn(evs, conf.Key(), p);
    AddEventsExact(conf, parse, children, newChildren);
    DelEventsExact(conf, parse, children, newChildren);
    assert p in newChildren && p !in children ==> Event(Add, u) in d.events;
    assert p in children && p !in newChildren ==> Event(Del, u) in d.events;
    match Last(evs, conf.Key(), p)
    case None =>
    case Some(ev) =>
      assert ev.url == u;
      if ev in AddEvents(conf, parse, children, newChildren) {
      } else if ev in DelEvents(conf, parse, children, newChildren).events {
      }
  }

  function Events(ds: seq<Delivery>): (evs: seq<Event>)
    ensures |evs| == |ds| && forall i | 0 <= i < |ds| :: evs[i] == ds[i].event
  {
    seq(|ds|, i requires 0 <= i < |ds| => ds[i].event)
  }

  /** Which events take effect: adds and updates always, deletes while the connection is up. */
  lemma {:induction false} EffectiveExact(ds: seq<Delivery>, ev: Event)
    ensures ev in Effective(ds) <==> exists i :: 0 <= i < |ds| && ds[i].event == ev && (!ev.action.Del? || ds[i].connValid)
    decreases |ds|
  {
    if ds != [] {
      var n := |ds| - 1;
      EffectiveExact(ds[..n], ev);
      if i :| 0 <= i < |ds| && ds[i].event == ev && (!ev.action.Del? || ds[i].connValid) {
        assert i < n ==> ds[..n][i] == ds[i];
      }
      if i :| 0 <= i < n && ds[..n][i].event == ev && (!ev.action.Del? || ds[..n][i].connValid) {
        assert ds[i] == ds[..n][i];
      }
    }
  }

  /** A delete of this node was delivered while the connection was up. */
  predicate Deleted(ds: seq<Delivery>, u: ServiceURL) {
    exists i :: 0 <= i < |ds| && ds[i].connValid && ds[i].event == Event(Del, u)
  }

  /** The selector drops deletes while its connection to the registry is down. Its cache converges if
      and only if for every vanished compatible node some delete got through. */
  lemma SelectorConverges(view: View, conf: ServiceConfig, parse: Parser, children: seq<string>, newChildren: seq<string>, ds: seq<Delivery>)
    requires KeepsName(parse) && ViewOK(view) && Holds(view, conf, parse, children)
    requires Delivers(Events(ds), conf, parse, children, newChildren)
    ensures ViewOK(UpdateAll(view, Effective(ds)))
    ensures Holds(UpdateAll(view, Effective(ds)), conf, parse, newChildren)
       <==> forall p | Compatible(conf, parse, p) && p in children && p !in newChildren :: Deleted(ds, parse(p).value)
  {
    var after := UpdateAll(view, Effective(ds));
    LastWriterWins(view, Effective(ds));
    forall p | Compatible(conf, parse, p)
      ensures Find(At(after, conf.Key()), p) == (if p in newChildren then parse(p) else None)
         <==> (p in children && p !in newChildren ==> Deleted(ds, parse(p).value))
    {
      NodeEffective(conf, parse, children, newChildren, ds, p);
    }
  }

  /** The last effective event about a node: its add if it is new, a delete if it is gone and one got
      through, none if neither. */
  lemma NodeEffective(conf: ServiceConfig, parse: Parser, children: seq<string>, newChildren: seq<string>, ds: seq<Delivery>, p: string)
    requires KeepsName(parse) && Compatible(conf, parse, p)
    requires Delivers(Events(ds), conf, parse, children, newChildren)
    ensures var l := Last(Effective(ds), conf.Key(), p);
            && (p in newChildren ==> l.None? || l.value == Event(Add, parse(p).value))
            && (p in newChildren && p !in children ==> l.Some?)
            && (p !in newChildren ==> l.None? || l.value.action.Del?)
            && (p !in newChildren ==> (l.Some? <==> Deleted(ds, parse(p).value)))
  {
    var u := parse(p).value;
    var d := Diff(conf, parse, children, Some(newChildren));
    CompatibleKey(conf, parse, p);
    LastIsIn(Effective(ds), conf.Key(), p);
    AddEventsExact(conf, parse, children, newChildren);
    DelEventsExact(conf, parse, children, newChildren);
    EffectiveExact(ds, Event(Add, u));
    EffectiveExact(ds, Event(Del, u));
    if p in newChildren && p !in children {
      assert Event(Add, u) in d.events;
      var i :| 0 <= i < |ds| && Events(ds)[i] == Event(Add, u);
      assert ds[i].event == Event(Add, u);
    }
    match Last(Effective(ds), conf.Key(), p)
    case None =>
    case Some(ev) =>
      EffectiveExact(ds, ev);
      var i :| 0 <= i < |ds| && ds[i].event == ev;
      assert Events(ds)[i] == ev;
      assert ev.url == u;
  }

  // ----- Runs of a selector that drops deletes -----

  /** One observed change of the directory and what the selector is delivered for it. */
  datatype Change = Change(newChildren: seq<string>, ds: seq<Delivery>)

  /** The listing after `k` changes. */
  function Listing(children: seq<string>, changes: seq<Change>, k: nat): seq<string>
    requires k <= |changes|
  {
    if k == 0 then children else changes[k - 1].newChildren
  }

  ghost predicate Consecutive(conf: ServiceConfig, parse: Parser, children: seq<string>, changes: seq<Change>) {
    forall k | 0 <= k < |changes| ::
      Delivers(Events(changes[k].ds), conf, parse, Listing(children, changes, k), changes[k].newChildren)
  }

  function FedEffective(view: View, changes: seq<Change>): View
    decreases |changes|
  {
    if changes == [] then view
    else var n := |changes| - 1; UpdateAll(FedEffective(view, changes[..n]), Effective(changes[n].ds))
  }

  /** The node was listed at some point, and no delete of it has got through since. */
  predicate Lingers(parse: Parser, children: seq<string>, changes: seq<Change>, p: string)
    requires parse(p).Some?
  {
    exists k :: 0 <= k <= |changes| && p in Listing(children, changes, k)
                && forall j | k <= j < |changes| :: !Deleted(changes[j].ds, parse(p).value)
  }

  /** What the cache holds for a configuration, given the nodes that are in it. */
  ghost predicate HoldsOnly(view: View, conf: ServiceConfig, parse: Parser, has: string -> bool) {
    forall p | Compatible(conf, parse, p) :: Find(At(view, conf.Key()), p) == if has(p) then parse(p) else None
  }

  lemma LingersMore(parse: Parser, children: seq<string>, changes: seq<Change>, p: string)
    requires parse(p).Some? && changes != []
    ensures var n := |changes| - 1;
            Lingers(parse, children, changes, p) <==>
            p in changes[n].newChildren || (Lingers(parse, children, changes[..n], p) && !Deleted(changes[n].ds, parse(p).value))
  {
    var n, u := |changes| - 1, parse(p).value;
    var before := changes[..n];
    forall k | 0 <= k <= n ensures Listing(children, before, k) == Listing(children, changes, k) {
    }
    if p in changes[n].newChildren {
      assert p in Listing(children, changes, n + 1);
    } else if Lingers(parse, children, before, p) && !Deleted(changes[n].ds, u) {
      var k :| 0 <= k <= n && p in Listing(children, before, k) && forall j | k <= j < n :: !Deleted(before[j].ds, u);
      assert p in Listing(children, changes, k);
      forall j | k <= j < |changes| ensures !Deleted(changes[j].ds, u) {
        assert j < n ==> before[j] == changes[j];
      }
    } else if Lingers(parse, children, changes, p) {
      LingersBefore(parse, children, changes, p);
    }
  }

  lemma LingersBefore(parse: Parser, children: seq<string>, changes: seq<Change>, p: string)
    requires parse(p).Some? && changes != [] && Lingers(parse, children, changes, p) && p !in changes[|changes| - 1].newChildren
    ensures var n := |changes| - 1;
            Lingers(parse, children, changes[..n], p) && !Deleted(changes[n].ds, parse(p).value)
  {
    var n, u := |changes| - 1, parse(p).value;
    var k :| 0 <= k <= |changes| && p in Listing(children, changes, k) && forall j | k <= j < |changes| :: !Deleted(changes[j].ds, u);
    assert k <= n && p in Listing(children, changes[..n], k);
    forall j | k <= j < n ensures !Deleted(changes[..n][j].ds, u) {
      assert changes[..n][j] == changes[j];
    }
  }

  /** Along any run of changes, with deletes dropped while the connection is down, a compatible node is
      cached if and only if it was listed at some point and no delete of it has got through since; the
      nodes of the last listing always are. */
  lemma {:induction false} SelectorRun(view: View, conf: ServiceConfig, parse: Parser, children: seq<string>, changes: seq<Change>)
    requires KeepsName(parse) && ViewOK(view) && Holds(view, conf, parse, children)
    requires Consecutive(conf, parse, children, changes)
    ensures ViewOK(FedEffective(view, changes))
    ensures HoldsOnly(FedEffective(view, changes), conf, parse, p => parse(p).Some? && Lingers(parse, children, changes, p))
    decreases |changes|
  {
    if changes == [] {
      forall p | Compatible(conf, parse, p) ensures Lingers(parse, children, changes, p) <==> p in children {
        if p in children {
          assert p in Listing(children, changes, 0);
        }
      }
    } else {
      var n := |changes| - 1;
      var before, c := changes[..n], changes[n];
      FirstChanges(conf, parse, children, changes);
      SelectorRun(view, conf, parse, children, before);
      LastWriterWins(FedEffective(view, before), Effective(c.ds));
      forall p | Compatible(conf, parse, p)
        ensures Find(At(FedEffective(view, changes), conf.Key()), p) == if Lingers(parse, children, changes, p) then parse(p) else None
      {
        SelectorNode(conf, parse, children, changes, p);
      }
    }
  }

  lemma FirstChanges(conf: ServiceConfig, parse: Parser, children: seq<string>, changes: seq<Change>)
    requires changes != [] && Consecutive(conf, parse, children, changes)
    ensures Consecutive(conf, parse, children, changes[..|changes| - 1])
  {
    var n := |changes| - 1;
    forall k | 0 <= k <= n ensures Listing(children, changes[..n], k) == Listing(children, changes, k) {
    }
  }

  /** One more change: the last effective event about a node, if any, says whether it lingers. */
  lemma SelectorNode(conf: ServiceConfig, parse: Parser, children: seq<string>, changes: seq<Change>, p: string)
    requires KeepsName(parse) && Compatible(conf, parse, p)
    requires changes != [] && Consecutive(conf, parse, children, changes)
    ensures var n := |changes| - 1;
            (match Last(Effective(changes[n].ds), conf.Key(), p)
             case None => Lingers(parse, children, changes[..n], p)
             case Some(ev) => !ev.action.Del? && Some(ev.url) == parse(p))
            <==> Lingers(parse, children, changes, p)
    ensures var l := Last(Effective(changes[|changes| - 1].ds), conf.Key(), p);
            l.Some? && !l.value.action.Del? ==> Some(l.value.url) == parse(p)
  {
    var n := |changes| - 1;
    var c := changes[n];
    LingersMore(parse, children, changes, p);
    NodeEffective(conf, parse, Listing(children, changes, n), c.newChildren, c.ds, p);
    ListedLingers(parse, children, changes, p);
  }

  lemma ListedLingers(parse: Parser, children: seq<string>, changes: seq<Change>, p: string)
    requires parse(p).Some? && changes != []
    ensures var n := |changes| - 1;
            p in Listing(children, changes, n) ==> Lingers(parse, children, changes[..n], p)
  {
    var n := |changes| - 1;
    assert Listing(children, changes[..n], n) == Listing(children, changes, n);
  }

  /** The diff itself, in its own order, is one such delivery. */
  lemma DiffDelivers(conf: ServiceConfig, parse: Parser, children: seq<string>, newChildren: seq<string>)
    requires KeepsName(parse)
    requires forall n | n in children && n !in newChildren :: parse(n).Some?
    ensures Delivers(Diff(conf, parse, children, Some(newChildren)).events, conf, parse, children, newChildren)
  {
    AddEventsExact(conf, parse, children, newChildren);
    DelEventsExact(conf, parse, children, newChildren);
  }

  /** One observed change of the directory and what is delivered for it. */
  datatype Round = Round(newChildren: seq<string>, evs: seq<Event>)

  ghost predicate Chained(conf: ServiceConfig, parse: Parser, children: seq<string>, rounds: seq<Round>)
    decreases |rounds|
  {
    rounds != [] ==>
      && Delivers(rounds[0].evs, conf, parse, children, rounds[0].newChildren)
      && Chained(conf, parse, rounds[0].newChildren, rounds[1..])
  }

  function Final(children: seq<string>, rounds: seq<Round>): seq<string> {
    if rounds == [] then children else rounds[|rounds| - 1].newChildren
  }

  function Fed(view: View, rounds: seq<Round>): View
    decreases |rounds|
  {
    if rounds == [] then view else Fed(UpdateAll(view, rounds[0].evs), rounds[1..])
  }

  /** Along any run of changes whose child lists chain, the cache ends with exactly the compatible
      nodes of the last list. */
  lemma {:induction false} RunConverges(view: View, conf: ServiceConfig, parse: Parser, children: seq<string>, rounds: seq<Round>)
    requires KeepsName(parse) && ViewOK(view) && Holds(view, conf, parse, children)
    requires Chained(conf, parse, children, rounds)
    ensures ViewOK(Fed(view, rounds)) && Holds(Fed(view, rounds), conf, parse, Final(children, rounds))
    decreases |rounds|
  {
    if rounds != [] {
      var r := rounds[0];
      DiffConverges(view, conf, parse, children, r.newChildren, r.evs);
      RunConverges(UpdateAll(view, r.evs), conf, parse, r.newChildren, rounds[1..]);
      assert Final(children, rounds) == Final(r.newChildren, rounds[1..]);
    }
  }

  /** A delete of a node that is not cached changes no list. */
  lemma AbsentDelete(view: View, ev: Event)
    requires ViewOK(view) && ev.action.Del? && Find(At(view, KeyOf(ev.url)), ev.url.primitive).None?
    ensures forall k :: At(UpdateView(view, ev), k) == At(view, k)
  {
    var us := At(view, KeyOf(ev.url));
    NothingToSkip(us, ev.url.primitive);
  }

  lemma {:induction false} NothingToSkip(us: seq<ServiceURL>, p: string)
    requires Find(us, p).None?
    ensures SkipFilter(us, p) == us
    decreases |us|
  {
    if us != [] {
      NothingToSkip(us[1..], p);
    }
  }
}
