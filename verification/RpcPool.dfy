/**
  * The client's connection pool (client/rpc_pool.go). The methods of Pool below `constructor` are the
  * steps that a goroutine takes without being interrupted: getConn up to the unlocking of the pool,
  * dialling, the unlocked tests at the start of release, its locked rest, and Close as the collector
  * calls it.
  */
module RpcPool {
  import opened GoBase

  /** `open` is whether the transport client still is; `done` is the state of `once`; `born` the time
      of dialling. */
  class PoolConn {
    var done: bool
    var open: bool
    var created: int64
    ghost const born: int64

    constructor (now: int64)
      ensures !done && open && created == now == born
    {
      done, open, created, born := false, true, now, now;
    }

    method Close() returns (again: bool)
      modifies this
      ensures done && again == old(done)
      ensures if old(done) then open == old(open) && created == old(created) else !open && created == 0
    {
      again := true;
      if !done {
        done, open, created, again := true, false, 0, false;
      }
    }
  }

  /** Where a connection is: pooled at an index of a list, in the hands of a caller, on its way from a
      caller to the pool, or given up. */
  datatype Place = Pooled(key: string, i: nat) | CheckedOut | Releasing | Gone

  /** A list's key is the address and the protocol, joined with '@'. */
  class Pool {
    const size: int
    const ttl: int64
    var conns: map<string, seq<PoolConn>>
    ghost var place: map<PoolConn, Place>

    function List(key: string): seq<PoolConn>
      reads this
    {
      if key in conns then conns[key] else []
    }

    /** What holds of a connection at its place. Outside Gone, being closed shows as `created == 0`;
        and nothing is given up unclosed (but for a clock that says zero at dialling). */
    ghost predicate Fits(c: PoolConn, at: Place)
      reads this, c
    {
      && (if c.done then c.created == 0 && !c.open else c.created == c.born)
      && (!at.Gone? && !c.done ==> c.open)
      && (at.Gone? && c.open ==> c.born == 0)
      && (at.Pooled? ==> at.key in conns && at.i < |conns[at.key]| && conns[at.key][at.i] == c)
    }

    /** Every pooled connection is at one index of one list, hence in no caller's hands. */
    ghost predicate Valid()
      reads this, place.Keys
    {
      && (forall c | c in place :: Fits(c, place[c]))
      && (forall k, i | k in conns && 0 <= i < |conns[k]| :: conns[k][i] in place && place[conns[k][i]] == Pooled(k, i))
      && forall k | k in conns :: |conns[k]| <= if size > 0 then size else 0
    }

    constructor (size: int, ttl: int64)
      ensures Valid() && place == map[] && conns == map[] && this.size == size && this.ttl == ttl
    {
      this.size, this.ttl, conns, place := size, ttl, map[], map[];
    }

    /** getConn under the lock: the last connection that has not expired is handed out, and those behind
        it are closed. */
    method Pop(key: string, now: int64) returns (r: PoolConn?)
      requires Valid()
      modifies this`conns, this`place, place.Keys
      ensures Valid() && place.Keys == old(place.Keys)
      ensures forall c | c in place :: c.created == old(c.created)
      ensures conns - {key} == old(conns) - {key}
      ensures List(key) <= old(List(key))
      ensures forall j | |List(key)| <= j < |old(List(key))| && old(List(key))[j] != r ::
                old(List(key))[j] in place && place[old(List(key))[j]].Gone? && now - old(List(key))[j].created > ttl
      ensures forall c | c in place && c != r :: place[c] == old(place[c]) || (old(place[c]).Pooled? && place[c].Gone?)
      ensures r == null ==> List(key) == []
      ensures r != null ==>
                && |List(key)| < |old(List(key))| && r == old(List(key))[|List(key)|]
                && r in place && old(place[r]).Pooled? && place[r] == CheckedOut && now - r.created <= ttl
                && (now > ttl ==> r.open && !r.done)
    {
      r := null;
      ghost var all := List(key);
      while |List(key)| > 0
        invariant Valid() && place.Keys == old(place.Keys) && List(key) <= all
        invariant conns - {key} == old(conns) - {key}
        invariant forall c | c in place :: c.created == old(c.created)
        invariant forall c | c in place :: place[c] == old(place[c]) || (old(place[c]).Pooled? && place[c].Gone?)
        invariant forall j | |List(key)| <= j < |all| :: all[j] in place && place[all[j]].Gone? && now - all[j].created > ttl
        decreases |List(key)|
      {
        var conn, expired := PopLast(key, now);
        if !expired {
          return conn;
        }
      }
    }

    method PopLast(key: string, now: int64) returns (conn: PoolConn, expired: bool)
      requires Valid() && List(key) != []
      modifies this`conns, this`place, (set c | c in List(key) :: c)`open
      ensures Valid() && conn == old(List(key))[|old(List(key))| - 1]
      ensures List(key) == old(List(key))[..|old(List(key))| - 1] && conns - {key} == old(conns) - {key}
      ensures expired <==> now - conn.created > ttl
      ensures conn in old(place) && old(place)[conn].Pooled?
      ensures place == old(place)[conn := if expired then Gone else CheckedOut]
      ensures !expired && now > ttl ==> conn.open && !conn.done
    {
      var list := List(key);
      conn := list[|list| - 1];
      assert conn in List(key);
      assert conns[key := list[..|list| - 1]] - {key} == conns - {key};
      conns := conns[key := list[..|list| - 1]];
      expired := now - conn.created > ttl;
      if expired {
        conn.open := false;
        place := place[conn := Gone];
      } else {
        place := place[conn := CheckedOut];
      }
    }

    /** The rest of getConn when no pooled connection was left. */
    method Dial(now: int64) returns (r: PoolConn)
      requires Valid()
      modifies this`place
      ensures Valid() && fresh(r) && r.open && r.created == now && place == old(place)[r := CheckedOut]
    {
      r := new PoolConn(now);
      place := place[r := CheckedOut];
    }

    /** The start of release, outside the lock. */
    method Check(conn: PoolConn, failed: bool) returns (proceed: bool)
      requires Valid() && conn in place && place[conn].CheckedOut?
      modifies this`place, conn
      ensures Valid() && place == old(place)[conn := if proceed then Releasing else Gone]
      ensures proceed <==> old(conn.created) != 0 && !failed
      ensures if proceed then conn.open && !conn.done else old(conn.created) != 0 ==> conn.done && !conn.open
    {
      if conn.created == 0 {
        place := place[conn := Gone];
        return false;
      }
      if failed {
        var again := conn.Close();
        place := place[conn := Gone];
        return false;
      }
      place := place[conn := Releasing];
      proceed := true;
    }

    /** The rest of release; the connection may have been closed since the tests. */
    method Push(key: string, conn: PoolConn)
      requires Valid() && conn in place && place[conn].Releasing?
      modifies this`conns, this`place, conn`open
      ensures Valid()
      ensures if |old(List(key))| >= size
              then conns == old(conns) && place == old(place)[conn := Gone] && !conn.open
              else conns == old(conns)[key := old(List(key)) + [conn]] && conn.open == old(conn.open)
                   && place == old(place)[conn := Pooled(key, |old(List(key))|)]
    {
      var list := List(key);
      if |list| >= size {
        conn.open := false;
        place := place[conn := Gone];
        return;
      }
      conns := conns[key := list + [conn]];
      place := place[conn := Pooled(key, |list|)];
    }

    /** The collector closes a connection wherever it is. */
    method Collect(conn: PoolConn)
      requires Valid() && conn in place
      modifies conn
      ensures Valid() && conn.done && !conn.open && conn.created == 0
    {
      var again := conn.Close();
    }
  }

  /** What the invariant means: a connection is pooled at most once, and never while a caller has it or
      is releasing it; the lists are bounded; a closed pooled connection has its age reset; and every
      connection that is still open is pooled or in somebody's hands (unless it was dialled when the
      clock said zero). */
  lemma PoolSafety(p: Pool)
    requires p.Valid()
    ensures forall k, i, l, j | k in p.conns && 0 <= i < |p.conns[k]| && l in p.conns && 0 <= j < |p.conns[l]| ::
              p.conns[k][i] == p.conns[l][j] ==> k == l && i == j
    ensures forall k, i | k in p.conns && 0 <= i < |p.conns[k]| ::
              && p.conns[k][i] in p.place && !p.place[p.conns[k][i]].CheckedOut? && !p.place[p.conns[k][i]].Releasing?
              && (p.conns[k][i].open || p.conns[k][i].created == 0)
    ensures forall k | k in p.conns && p.conns[k] != [] :: |p.conns[k]| <= p.size
    ensures forall c | c in p.place && c.open && c.born != 0 && !p.place[c].CheckedOut? && !p.place[c].Releasing? ::
              exists k, i :: k in p.conns && 0 <= i < |p.conns[k]| && p.conns[k][i] == c
  {
  }

  /** A connection that is closed between the two halves of its release is pooled closed, and is what
      the next caller gets if and only if its age test passes: the clock has not got beyond `ttl`. */
  method CloseWhileReleasing(p: Pool, key: string, dialled: int64, now: int64) returns (conn: PoolConn, r: PoolConn?)
    requires p.Valid() && |p.List(key)| < p.size && dialled != 0
    modifies p, p.place.Keys
    ensures r == conn <==> now <= p.ttl
    ensures !conn.open
  {
    conn := p.Dial(dialled);
    var proceed := p.Check(conn, false);
    p.Collect(conn);
    p.Push(key, conn);
    r := p.Pop(key, now);
  }

  // ----- Runs -----

  /** One step of some goroutine; connections are named by the order in which they were handed out. */
  datatype Step =
    | Pop(key: string, now: int64)
    | Dial(now: int64)
    | Check(h: nat, failed: bool)
    | Push(h: nat, key: string)
    | Collect(h: nat)

  /** What a step comes to: a connection is handed out, open or not, or given back, or neither. */
  datatype Use = Out(conn: PoolConn, open: bool) | Back(conn: PoolConn) | Idle

  /** Handed out and not given back since. */
  function InUse(uses: seq<Use>): set<PoolConn> {
    if uses == [] then {}
    else
      var last, before := uses[|uses| - 1], InUse(uses[..|uses| - 1]);
      match last
      case Out(c, _) => before + {c}
      case Back(c) => before - {c}
      case Idle => before
  }

  /** Nothing is handed out while in use. */
  predicate Exclusive(uses: seq<Use>) {
    forall k | 0 <= k < |uses| && uses[k].Out? :: uses[k].conn !in InUse(uses[..k])
  }

  /** The connections that callers know of: those from the start, and those handed out. */
  function Known(start: seq<PoolConn>, uses: seq<Use>): seq<PoolConn> {
    if uses == [] then start
    else
      var last, before := uses[|uses| - 1], Known(start, uses[..|uses| - 1]);
      if last.Out? then before + [last.conn] else before
  }

  lemma OneMore(start: seq<PoolConn>, uses: seq<Use>, u: Use)
    ensures InUse(uses + [u]) == (match u case Out(c, _) => InUse(uses) + {c} case Back(c) => InUse(uses) - {c} case Idle => InUse(uses))
    ensures Known(start, uses + [u]) == if u.Out? then Known(start, uses) + [u.conn] else Known(start, uses)
    ensures Exclusive(uses) && (u.Out? ==> u.conn !in InUse(uses)) ==> Exclusive(uses + [u])
  {
    assert (uses + [u])[..|uses|] == uses;
    forall k | 0 <= k < |uses| ensures (uses + [u])[k] == uses[k] && (uses + [u])[..k] == uses[..k] {
    }
  }

  /** The callers: the connections they know of, those they use, those they are releasing. */
  datatype Callers = Callers(known: seq<PoolConn>, mine: set<PoolConn>, passing: set<PoolConn>)

  ghost predicate Inv(p: Pool, e: Callers)
    reads p, p.place.Keys
  {
    && p.Valid()
    && (forall c | c in e.known :: c in p.place)
    && (forall c | c in e.mine :: c in p.place && p.place[c].CheckedOut?)
    && (forall c | c in e.passing :: c in p.place && p.place[c].Releasing?)
    && (forall c | c in p.place && p.place[c].CheckedOut? :: c in e.mine)
    && (forall c | c in p.place && p.place[c].Releasing? :: c in e.passing)
  }

  /** What is known and in use is what has happened to come out. */
  ghost predicate Records(start: seq<PoolConn>, e: Callers, uses: seq<Use>) {
    e.known == Known(start, uses) && e.mine == InUse(uses) && Exclusive(uses)
  }

  method ActPop(p: Pool, e: Callers, key: string, now: int64) returns (e': Callers, u: Use)
    requires Inv(p, e)
    modifies p`conns, p`place, p.place.Keys
    ensures Inv(p, e') && p.place.Keys == old(p.place.Keys)
    ensures u.Idle? || (u.Out? && u.conn !in e.mine && (now > p.ttl ==> u.open))
    ensures e' == if u.Out? then e.(known := e.known + [u.conn], mine := e.mine + {u.conn}) else e
  {
    var r := p.Pop(key, now);
    if r == null {
      return e, Idle;
    }
    u := Out(r, r.open);
    e' := e.(known := e.known + [r], mine := e.mine + {r});
  }

  method ActDial(p: Pool, e: Callers, now: int64) returns (e': Callers, u: Use)
    requires Inv(p, e)
    modifies p`place
    ensures Inv(p, e') && fresh(p.place.Keys - old(p.place.Keys))
    ensures u.Out? && u.conn !in e.mine && u.open
    ensures e' == e.(known := e.known + [u.conn], mine := e.mine + {u.conn})
  {
    var r := p.Dial(now);
    u := Out(r, r.open);
    e' := e.(known := e.known + [r], mine := e.mine + {r});
  }

  /** What a release comes to: the connection is given back if it is in use. */
  function Released(known: seq<PoolConn>, mine: set<PoolConn>, h: nat): Use {
    if h < |known| && known[h] in mine then Back(known[h]) else Idle
  }

  /** A caller may release only what it uses, and only once; the collector closes anything. */
  method ActOn(p: Pool, e: Callers, s: Step) returns (e': Callers, u: Use)
    requires Inv(p, e) && (s.Check? || s.Push? || s.Collect?)
    modifies p`conns, p`place, p.place.Keys
    ensures Inv(p, e') && p.place.Keys == old(p.place.Keys)
    ensures u == if s.Check? then Released(e.known, e.mine, s.h) else Idle
    ensures e'.known == e.known && e'.mine == if u.Back? then e.mine - {u.conn} else e.mine
  {
    e', u := e, Idle;
    if s.h >= |e.known| {
      return;
    }
    var c := e.known[s.h];
    match s {
      case Check(_, failed) =>
        if c in e.mine {
          var proceed := p.Check(c, failed);
          u := Back(c);
          e' := Callers(e.known, e.mine - {c}, if proceed then e.passing + {c} else e.passing);
        }
      case Push(_, key) =>
        if c in e.passing {
          p.Push(key, c);
          e' := e.(passing := e.passing - {c});
        }
      case Collect(_) => p.Collect(c);
    }
  }

  /** What step `s` after `uses` may come to. */
  predicate Follows(start: seq<PoolConn>, uses: seq<Use>, s: Step, u: Use, ttl: int64) {
    match s
    case Pop(_, now) => u.Idle? || (u.Out? && (now > ttl ==> u.open))
    case Dial(_) => u.Out? && u.open
    case Check(h, _) => u == Released(Known(start, uses), InUse(uses), h)
    case Push(_, _) => u.Idle?
    case Collect(_) => u.Idle?
  }

  /** Any run of steps of any number of goroutines over a pool keeps the invariant. Nothing is handed
      out while it is in use; a dialled connection is handed out open, and a pooled one is open once the
      clock has passed `ttl`; and a connection in use can be released, once. */
  method Run(p: Pool, start: seq<PoolConn>, steps: seq<Step>) returns (uses: seq<Use>)
    requires p.Valid() && forall c | c in p.place :: p.place[c].Pooled? || p.place[c].Gone?
    requires forall c | c in start :: c in p.place
    modifies p, p.place.Keys
    ensures p.Valid() && Exclusive(uses) && |uses| == |steps|
    ensures forall i | 0 <= i < |steps| :: Follows(start, uses[..i], steps[i], uses[i], p.ttl)
  {
    var e := Callers(start, {}, {});
    uses := [];
    for i := 0 to |steps|
      invariant Inv(p, e) && fresh(p.place.Keys - old(p.place.Keys))
      invariant Records(start, e, uses) && |uses| == i
      invariant forall k | 0 <= k < i :: Follows(start, uses[..k], steps[k], uses[k], p.ttl)
    {
      var u;
      match steps[i] {
        case Pop(key, now) => e, u := ActPop(p, e, key, now);
        case Dial(now) => e, u := ActDial(p, e, now);
        case _ => e, u := ActOn(p, e, steps[i]);
      }
      OneMore(start, uses, u);
      StillFollows(start, uses, u, steps, i, p.ttl);
      uses := uses + [u];
    }
  }

  lemma StillFollows(start: seq<PoolConn>, uses: seq<Use>, u: Use, steps: seq<Step>, i: nat, ttl: int64)
    requires i == |uses| < |steps| && Follows(start, uses, steps[i], u, ttl)
    requires forall k | 0 <= k < i :: Follows(start, uses[..k], steps[k], uses[k], ttl)
    ensures forall k | 0 <= k <= i :: Follows(start, (uses + [u])[..k], steps[k], (uses + [u])[k], ttl)
  {
    forall k | 0 <= k <= i ensures Follows(start, (uses + [u])[..k], steps[k], (uses + [u])[k], ttl) {
      assert (uses + [u])[..k] == uses[..k];
      assert uses[..i] == uses;
    }
  }
}
