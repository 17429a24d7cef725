/**
  * The cache selector (selector/cache/cache.go): slices of service URLs by service key, updated in
  * place while their contents are handed out.
  */
module ServiceCache {
  import opened ServiceRegistry

  // ----- The loop of update, on values -----

  /** What update's loop keeps of a list: it ranges over the slice as it was before the loop while
      each removal shifts the rest down, so the element after a removed one is never looked at. */
  function SkipFilter(us: seq<ServiceURL>, p: string): (r: seq<ServiceURL>)
    ensures |r| <= |us|
  {
    if us == [] then []
    else if us[0].primitive != p then [us[0]] + SkipFilter(us[1..], p)
    else if |us| == 1 then []
    else [us[1]] + SkipFilter(us[2..], p)
  }

  /** What the loop is for: the list without the URLs of that name, in the same order. */
  function Without(us: seq<ServiceURL>, p: string): (r: seq<ServiceURL>)
    ensures forall u :: u in r <==> u in us && u.primitive != p
  {
    if us == [] then []
    else if us[0].primitive == p then Without(us[1..], p)
    else [us[0]] + Without(us[1..], p)
  }

  predicate AdjacentMatches(us: seq<ServiceURL>, p: string) {
    exists i :: 0 <= i < |us| - 1 && us[i].primitive == p && us[i + 1].primitive == p
  }

  /** The loop removes every match and keeps the order of the others exactly when no two matches are
      neighbours. */
  lemma {:induction false} SkipFilterExact(us: seq<ServiceURL>, p: string)
    ensures SkipFilter(us, p) == Without(us, p) <==> !AdjacentMatches(us, p)
    decreases |us|
  {
    if us == [] {
    } else if us[0].primitive != p {
      SkipFilterExact(us[1..], p);
      Later(us, p, 1);
      SameTails(us[0], SkipFilter(us[1..], p), Without(us[1..], p));
    } else if |us| == 1 {
    } else if us[1].primitive != p {
      assert us[1..][1..] == us[2..];
      SkipFilterExact(us[2..], p);
      Later(us, p, 2);
      SameTails(us[1], SkipFilter(us[2..], p), Without(us[2..], p));
    } else {
      assert us[0].primitive == p && us[0 + 1].primitive == p;
      assert us[1] in SkipFilter(us, p);
    }
  }

  lemma SameTails(u: ServiceURL, a: seq<ServiceURL>, b: seq<ServiceURL>)
    ensures [u] + a == [u] + b <==> a == b
  {
    assert ([u] + a)[1..] == a && ([u] + b)[1..] == b;
  }

  lemma Later(us: seq<ServiceURL>, p: string, k: nat)
    requires 1 <= k <= |us| && (forall i | 0 <= i < k && i < |us| - 1 :: us[i].primitive != p || us[i + 1].primitive != p)
    ensures AdjacentMatches(us, p) <==> AdjacentMatches(us[k..], p)
  {
    if i :| 0 <= i < |us| - 1 && us[i].primitive == p && us[i + 1].primitive == p {
      assert us[k..][i - k].primitive == p && us[k..][i - k + 1].primitive == p;
    }
    if i :| 0 <= i < |us[k..]| - 1 && us[k..][i].primitive == p && us[k..][i + 1].primitive == p {
      assert us[i + k].primitive == p && us[i + k + 1].primitive == p;
    }
  }

  lemma {:induction false} WithoutDistinct(us: seq<ServiceURL>, p: string)
    requires Distinct(us)
    ensures Distinct(Without(us, p))
    decreases |us|
  {
    if us != [] {
      var r := Without(us[1..], p);
      WithoutDistinct(us[1..], p);
      forall i | 0 <= i < |r| ensures r[i].primitive != us[0].primitive {
        assert r[i] in us[1..];
      }
    }
  }

  lemma {:induction false} WithoutFind(us: seq<ServiceURL>, p: string, q: string)
    ensures Find(Without(us, p), q) == if q == p then None else Find(us, q)
    decreases |us|
  {
    if us != [] {
      WithoutFind(us[1..], p, q);
      assert ([us[0]] + Without(us[1..], p))[1..] == Without(us[1..], p);
    }
  }

  lemma {:induction false} FindAppend(us: seq<ServiceURL>, u: ServiceURL, q: string)
    ensures Find(us + [u], q) == if Find(us, q).Some? then Find(us, q) else if u.primitive == q then Some(u) else None
    decreases |us|
  {
    if us == [] {
      assert us + [u] == [u] && [u][1..] == [];
    } else {
      assert (us + [u])[1..] == us[1..] + [u];
      FindAppend(us[1..], u, q);
    }
  }

  // ----- The cache's contents -----

  type View = map<string, seq<ServiceURL>>

  function At(view: View, key: string): seq<ServiceURL> {
    if key in view then view[key] else []
  }

  predicate PlainProtocols(view: View) {
    forall k | k in view :: forall i | 0 <= i < |view[k]| :: '@' !in view[k][i].protocol
  }

  /** What is cached under a configuration's key is of its service and protocol. */
  lemma OwnService(view: View, conf: ServiceConfig)
    requires ViewOK(view) && PlainProtocols(view) && '@' !in conf.protocol
    ensures forall u | u in At(view, conf.Key()) :: u.protocol == conf.protocol && u.Get("interface") == conf.service
  {
    var us := At(view, conf.Key());
    forall u | u in us ensures u.protocol == conf.protocol && u.Get("interface") == conf.service {
      var i :| 0 <= i < |us| && us[i] == u;
      KeyExact(u.Config(), conf);
    }
  }

  /** One update: an emptied list gives up its key. */
  function UpdateView(view: View, ev: Event): View {
    var key := KeyOf(ev.url);
    var kept := SkipFilter(At(view, key), ev.url.primitive);
    var us := if ev.action.Del? then kept else kept + [ev.url];
    if us == [] then view - {key} else view[key := us]
  }

  function UpdateAll(view: View, evs: seq<Event>): View
    decreases |evs|
  {
    if evs == [] then view else UpdateView(UpdateAll(view, evs[..|evs| - 1]), evs[|evs| - 1])
  }

  predicate AllFor(conf: ServiceConfig, us: seq<ServiceURL>) {
    forall i | 0 <= i < |us| :: conf.ServiceEqual(us[i])
  }

  /** No list repeats a node name and every URL sits under its own key. */
  predicate ViewOK(view: View) {
    forall k | k in view :: Distinct(view[k]) && forall i | 0 <= i < |view[k]| :: KeyOf(view[k][i]) == k
  }

  lemma UpdateKeeps(view: View, ev: Event)
    requires ViewOK(view)
    ensures ViewOK(UpdateView(view, ev))
    ensures forall k, q :: Find(At(UpdateView(view, ev), k), q) ==
                           if k == KeyOf(ev.url) && q == ev.url.primitive then (if ev.action.Del? then None else Some(ev.url))
                           else Find(At(view, k), q)
  {
    var key, p := KeyOf(ev.url), ev.url.primitive;
    var us := At(view, key);
    KeptList(us, key, p);
    forall k, q
      ensures Find(At(UpdateView(view, ev), k), q) ==
              if k == key && q == p then (if ev.action.Del? then None else Some(ev.url)) else Find(At(view, k), q)
    {
      if k == key {
        WithoutFind(us, p, q);
        FindAppend(Without(us, p), ev.url, q);
      }
    }
  }

  /** Without repeated names the loop filters, and what it keeps stays a proper list for its key. */
  lemma KeptList(us: seq<ServiceURL>, key: string, p: string)
    requires Distinct(us) && forall i | 0 <= i < |us| :: KeyOf(us[i]) == key
    ensures var kept := SkipFilter(us, p);
            && kept == Without(us, p) && Distinct(kept)
            && forall i | 0 <= i < |kept| :: KeyOf(kept[i]) == key && kept[i].primitive != p
  {
    var kept := Without(us, p);
    assert !AdjacentMatches(us, p);
    SkipFilterExact(us, p);
    WithoutDistinct(us, p);
    forall i | 0 <= i < |kept| ensures KeyOf(kept[i]) == key && kept[i].primitive != p {
      assert kept[i] in us;
    }
  }

  /** Filtering keeps the order: the parts of a list are filtered one after the other. */
  lemma {:induction false} WithoutInOrder(a: seq<ServiceURL>, b: seq<ServiceURL>, p: string)
    ensures Without(a + b, p) == Without(a, p) + Without(b, p)
    decreases |a|
  {
    if a == [] {
      assert [] + b == b;
    } else {
      WithoutInOrder(a[1..], b, p);
      assert (a + b)[1..] == a[1..] + b;
      assert [a[0]] + (Without(a[1..], p) + Without(b, p)) == ([a[0]] + Without(a[1..], p)) + Without(b, p);
    }
  }

  /** What an update makes of the lists: the other URLs of the key stay in their order, an added or
      updated one comes last, and no other list changes. */
  lemma UpdateInOrder(view: View, ev: Event, k: string)
    requires ViewOK(view)
    ensures At(UpdateView(view, ev), k) ==
            if k == KeyOf(ev.url) then Without(At(view, k), ev.url.primitive) + (if ev.action.Del? then [] else [ev.url])
            else At(view, k)
  {
    if k == KeyOf(ev.url) {
      KeptList(At(view, k), k, ev.url.primitive);
    }
  }

  /** The last event about a node name under a key. */
  function Last(evs: seq<Event>, key: string, p: string): Option<Event> {
    if evs == [] then None
    else
      var ev := evs[|evs| - 1];
      if KeyOf(ev.url) == key && ev.url.primitive == p then Some(ev) else Last(evs[..|evs| - 1], key, p)
  }

  lemma {:induction false} LastExact(evs: seq<Event>, key: string, p: string, i: nat)
    requires i < |evs| && KeyOf(evs[i].url) == key && evs[i].url.primitive == p
    requires forall j | i < j < |evs| :: KeyOf(evs[j].url) != key || evs[j].url.primitive != p
    ensures Last(evs, key, p) == Some(evs[i])
    decreases |evs|
  {
    var n := |evs| - 1;
    if i < n {
      assert evs[..n][i] == evs[i];
      LastExact(evs[..n], key, p, i);
    }
  }

  /** The cache is a last-writer-wins map: after any run of events, under every key and for every
      node name, the cache holds the URL of the last add or update, nothing after a delete, and what
      it held before if no event named it; no list repeats a name, and every URL is under its key. */
  lemma {:induction false} LastWriterWins(view: View, evs: seq<Event>)
    requires ViewOK(view)
    ensures ViewOK(UpdateAll(view, evs))
    ensures forall k, q :: Find(At(UpdateAll(view, evs), k), q) ==
                           match Last(evs, k, q)
                           case None => Find(At(view, k), q)
                           case Some(ev) => if ev.action.Del? then None else Some(ev.url)
    decreases |evs|
  {
    if evs != [] {
      LastWriterWins(view, evs[..|evs| - 1]);
      UpdateKeeps(UpdateAll(view, evs[..|evs| - 1]), evs[|evs| - 1]);
    }
  }

  lemma OneMore(view: View, evs: seq<Event>, ev: Event)
    ensures UpdateAll(view, evs + [ev]) == UpdateView(UpdateAll(view, evs), ev)
  {
    assert (evs + [ev])[..|evs|] == evs;
  }

  // ----- The selector object -----

  /** A Go slice that starts at its array: the first `len` elements. */
  datatype Slice = Slice(arr: array<ServiceURL>, len: nat)

  /** An event as the watcher delivers it, with the connection's state and the time at that moment. */
  datatype Delivery = Delivery(event: Event, connValid: bool, now: int)

  /** The events that watch passes on: deletes are dropped while the connection is down. */
  function Effective(ds: seq<Delivery>): seq<Event>
    decreases |ds|
  {
    if ds == [] then []
    else
      var d, before := ds[|ds| - 1], Effective(ds[..|ds| - 1]);
      if d.event.action.Del? && !d.connValid then before else before + [d.event]
  }

  /** They are passed on in the order of their delivery. */
  lemma {:induction false} EffectiveInOrder(a: seq<Delivery>, b: seq<Delivery>)
    ensures Effective(a + b) == Effective(a) + Effective(b)
    decreases |b|
  {
    if b == [] {
      assert a + b == a;
    } else {
      var n := |b| - 1;
      assert (a + b)[..|a| + n] == a + b[..n];
      EffectiveInOrder(a, b[..n]);
    }
  }

  datatype Origin = Copied | Refreshed | Shared | Failed

  /** `filterServices`: closes the gap at `i` by moving the later elements down. */
  method FilterServices(arr: array<ServiceURL>, len: nat, i: nat) returns (newLen: nat)
    requires len <= arr.Length
    modifies arr
    ensures i >= len ==> newLen == len && arr[..] == old(arr[..])
    ensures i < len ==> newLen == len - 1 && arr[..newLen] == old(arr[..i]) + old(arr[i + 1..len])
    ensures arr[newLen..] == old(arr[newLen..])
  {
    if len <= i {
      return len;
    }
    newLen := len - 1;
    for j := i to newLen
      invariant forall k | 0 <= k < arr.Length && !(i <= k < j) :: arr[k] == old(arr[k])
      invariant forall k | i <= k < j :: arr[k] == old(arr[k + 1])
    {
      arr[j] := arr[j + 1];
    }
  }

  /** The loop's result as far as it is settled before position `i`, with `len` elements left. */
  function Progress(a: seq<ServiceURL>, i: nat, len: nat, p: string): seq<ServiceURL>
    requires len <= |a|
  {
    if i < len then a[..i] + SkipFilter(a[i..len], p) else a[..len]
  }

  lemma KeepOne(a: seq<ServiceURL>, i: nat, len: nat, p: string)
    requires i < len <= |a| && a[i].primitive != p
    ensures Progress(a, i, len, p) == Progress(a, i + 1, len, p)
  {
    var todo := a[i..len];
    assert todo[0] == a[i] && todo[1..] == a[i + 1..len];
    assert a[..i + 1] == a[..i] + [a[i]];
    Regroup(a[..i], a[i], SkipFilter(todo[1..], p));
    if i + 1 == len {
      assert todo[1..] == [];
      assert a[..i] + [a[i]] + [] == a[..len];
    }
  }

  lemma Regroup(a: seq<ServiceURL>, u: ServiceURL, b: seq<ServiceURL>)
    ensures a + ([u] + b) == a + [u] + b
  {
  }

  /** After a removal at `i`, its successor sits there and is not looked at again. */
  lemma DropOne(a: seq<ServiceURL>, b: seq<ServiceURL>, i: nat, len: nat, p: string)
    requires i < len <= |a| && len - 1 <= |b| && a[i].primitive == p
    requires b[..len - 1] == a[..i] + a[i + 1..len]
    ensures Progress(a, i, len, p) == Progress(b, i + 1, len - 1, p)
  {
    if i + 1 < len {
      var kept := b[..len - 1];
      assert a[i..len][2..] == a[i + 2..len];
      assert kept[i + 1..] == a[i + 2..len];
      assert kept[i + 1..] == b[i + 1..len - 1];
      assert kept[..i + 1] == a[..i] + [a[i + 1]];
      assert b[..i + 1] == kept[..i + 1];
    }
  }

  function IndexOf(us: seq<ServiceURL>, p: string): (i: nat)
    ensures i <= |us|
    ensures i < |us| ==> us[i].primitive == p
    ensures forall j | 0 <= j < i :: us[j].primitive != p
  {
    if us == [] then 0 else if us[0].primitive == p then 0 else 1 + IndexOf(us[1..], p)
  }

  /** What a holder of the whole slice sees after the removal of `p`: the elements after it have moved
      down by one, and the last one is still where it was. */
  function Held(us: seq<ServiceURL>, p: string): (r: seq<ServiceURL>)
    ensures |r| == |us|
  {
    var i := IndexOf(us, p);
    if i == |us| then us else us[..i] + us[i + 1..] + [us[|us| - 1]]
  }

  lemma HeldAt(us: seq<ServiceURL>, p: string, i: nat)
    requires Distinct(us) && IndexOf(us, p) < i < |us|
    ensures Held(us, p)[i].primitive != p
  {
    var at := IndexOf(us, p);
    assert Held(us, p)[i] == us[if i == |us| - 1 then i else i + 1];
  }

  /** A holder sees no change if and only if what is removed is the last element, or not there. */
  lemma HeldExact(us: seq<ServiceURL>, p: string)
    requires Distinct(us)
    ensures Held(us, p) == us <==> IndexOf(us, p) >= |us| - 1
  {
    var i := IndexOf(us, p);
    if i < |us| - 1 {
      assert Held(us, p)[i] == us[i + 1];
    } else if i == |us| - 1 {
      assert us[..i] + us[i + 1..] + [us[i]] == us;
    }
  }

  /** What one turn of the loop does to the array and the length left. */
  predicate Turn(a: seq<ServiceURL>, b: seq<ServiceURL>, i: nat, len: nat, len': nat, p: string) {
    && |a| == |b| && i < |a| && len <= |a|
    && if a[i].primitive == p && i < len
       then len' == len - 1 && b[..len - 1] == a[..i] + a[i + 1..len] && b[len - 1..] == a[len - 1..]
       else len' == len && b == a
  }

  lemma TurnProgress(a: seq<ServiceURL>, b: seq<ServiceURL>, i: nat, len: nat, len': nat, p: string)
    requires Turn(a, b, i, len, len', p)
    ensures Progress(b, i + 1, len', p) == Progress(a, i, len, p)
  {
    if i < len {
      if a[i].primitive == p {
        DropOne(a, b, i, len, p);
      } else {
        KeepOne(a, i, len, p);
      }
    }
  }

  /** The whole slice after `i` turns, when names are distinct. */
  function HeldSoFar(us: seq<ServiceURL>, p: string, i: nat): seq<ServiceURL> {
    if i <= IndexOf(us, p) then us else Held(us, p)
  }

  lemma TurnHeld(us: seq<ServiceURL>, a: seq<ServiceURL>, b: seq<ServiceURL>, i: nat, len: nat, len': nat, p: string)
    requires Distinct(us) && Turn(a, b, i, len, len', p) && i < |us| <= |a|
    requires a[..|us|] == HeldSoFar(us, p, i) && len <= |us| && (i <= IndexOf(us, p) ==> len == |us|)
    ensures b[..|us|] == HeldSoFar(us, p, i + 1) && (i + 1 <= IndexOf(us, p) ==> len' == |us|)
  {
    var at, n := IndexOf(us, p), |us|;
    assert a[i] == a[..n][i];
    if i == at {
      assert b[..n] == b[..n - 1] + [b[n - 1]];
      assert b[n - 1] == b[n - 1..][0] == a[n - 1];
      assert a[n - 1] == a[..n][n - 1];
      assert a[..i] == a[..n][..i] && a[i + 1..n] == a[..n][i + 1..];
    } else if i > at {
      HeldAt(us, p, i);
    }
  }

  method RemoveTurn(arr: array<ServiceURL>, i: nat, len: nat, p: string) returns (len': nat)
    requires i < arr.Length && len <= arr.Length
    modifies arr
    ensures len' <= len && Turn(old(arr[..]), arr[..], i, len, len', p)
  {
    ghost var before := arr[..];
    len' := len;
    if arr[i].primitive == p {
      len' := FilterServices(arr, len, i);
    }
    Turned(arr, before, i, len, len', p);
  }

  /** Where the loop over `us` stands after `i` turns. */
  predicate Removing(us: seq<ServiceURL>, a: seq<ServiceURL>, i: nat, len: nat, p: string) {
    && len <= |us| <= |a|
    && Progress(a, i, len, p) == SkipFilter(us, p)
    && (Distinct(us) ==> a[..|us|] == HeldSoFar(us, p, i) && (i <= IndexOf(us, p) ==> len == |us|))
  }

  lemma RemovingTurn(us: seq<ServiceURL>, a: seq<ServiceURL>, b: seq<ServiceURL>, i: nat, len: nat, len': nat, p: string)
    requires i < |us| && Removing(us, a, i, len, p) && Turn(a, b, i, len, len', p)
    ensures Removing(us, b, i + 1, len', p)
  {
    TurnProgress(a, b, i, len, len', p);
    if Distinct(us) {
      TurnHeld(us, a, b, i, len, len', p);
    }
  }

  /** The loop of update over a slice of `n` elements: `len` is the length of the variable that
      filterServices shortens, `n` that of the slice being ranged over. */
  method RemoveByName(arr: array<ServiceURL>, n: nat, p: string) returns (len: nat)
    requires n <= arr.Length
    modifies arr
    ensures len <= n && arr[..len] == SkipFilter(old(arr[..n]), p)
    ensures Distinct(old(arr[..n])) ==> arr[..n] == Held(old(arr[..n]), p)
  {
    len := n;
    ghost var us := arr[..n];
    Prefixes(arr, n);
    for i := 0 to n
      invariant Removing(us, arr[..], i, len, p)
    {
      ghost var before, l := arr[..], len;
      len := RemoveTurn(arr, i, len, p);
      RemovingTurn(us, before, arr[..], i, l, len, p);
    }
    Prefixes(arr, n);
    Prefixes(arr, len);
  }

  lemma Prefixes(arr: array<ServiceURL>, n: nat)
    requires n <= arr.Length
    ensures arr[..][..n] == arr[..n] == arr[..][0..n]
  {
  }

  lemma Turned(arr: array<ServiceURL>, a: seq<ServiceURL>, i: nat, len: nat, len': nat, p: string)
    requires |a| == arr.Length && i < |a| && len <= |a|
    requires if a[i].primitive == p && i < len
             then len' == len - 1 && arr[..len'] == a[..i] + a[i + 1..len] && arr[len'..] == a[len'..]
             else len' == len && arr[..] == a
    ensures Turn(a, arr[..], i, len, len', p)
  {
    if a[i].primitive == p && i < len {
      assert arr[..][..len - 1] == arr[..len'] && arr[..][len - 1..] == arr[len'..];
    }
  }

  /** Go's `append` of one element: in place while the array has room, else into a larger one. */
  method AppendURL(s: Slice, u: ServiceURL) returns (t: Slice)
    requires s.len <= s.arr.Length
    modifies s.arr
    ensures t.len == s.len + 1 <= t.arr.Length
    ensures t.arr[..t.len] == old(s.arr[..s.len]) + [u]
    ensures t.arr == s.arr || fresh(t.arr)
  {
    if s.len < s.arr.Length {
      s.arr[s.len] := u;
      t := Slice(s.arr, s.len + 1);
    } else {
      var old_ := s.arr[..s.len];
      var room: nat :| room > s.len;
      var arr := new ServiceURL[room](i => if 0 <= i < |old_| then old_[i] else u);
      assert arr[..s.len] == old_;
      t := Slice(arr, s.len + 1);
    }
  }

  /** `copy`: a new slice with the same elements. */
  method CopySlice(s: Slice) returns (t: Slice)
    requires s.len <= s.arr.Length
    ensures fresh(t.arr) && t.len == s.len == t.arr.Length
    ensures t.arr[..t.len] == s.arr[..s.len]
  {
    var current := s.arr[..s.len];
    var arr := new ServiceURL[s.len](i requires 0 <= i < |current| => current[i]);
    t := Slice(arr, s.len);
  }

  class CacheSelector {
    const ttl: int
    var cache: map<string, Slice>
    var ttls: map<string, int>

    /** The arrays behind the cached slices. */
    ghost function Repr(): set<object>
      reads this
    {
      set k | k in cache :: cache[k].arr
    }

    ghost predicate Valid()
      reads this, Repr()
    {
      && (forall k | k in cache :: cache[k].len <= cache[k].arr.Length)
      && forall k, l | k in cache && l in cache && k != l :: cache[k].arr != cache[l].arr
    }

    ghost function Contents(): View
      requires Valid()
      reads this, Repr()
    {
      map k | k in cache :: cache[k].arr[..cache[k].len]
    }

    constructor (ttl_: int)
      ensures Valid() && Contents() == map[] && Repr() == {} && ttl == ttl_ && ttls == map[]
    {
      ttl := ttl_;
      cache := map[];
      ttls := map[];
    }

    ghost predicate Agrees(k: string, other: array<ServiceURL>, others: View)
      requires k in cache
      reads this, Repr()
    {
      && k in others
      && cache[k].len <= cache[k].arr.Length && cache[k].arr != other
      && cache[k].arr[..cache[k].len] == others[k]
    }

    /** Whether this slice may be cached under `service` next to what `others` describes. */
    ghost predicate Accepts(service: string, services: Slice, others: View)
      reads this, Repr()
    {
      && services.len <= services.arr.Length
      && (forall k | k in others && k != service :: k in cache)
      && (forall k | k in cache && k != service :: Agrees(k, services.arr, others))
      && forall k, l | k in cache && l in cache && k != l && k != service && l != service :: cache[k].arr != cache[l].arr
    }

    /** Caches a slice under a key with the time until which it counts as new. */
    method Store(service: string, services: Slice, now: int, ghost others: View)
      requires Accepts(service, services, others)
      modifies this
      ensures Valid() && Repr() <= old(Repr()) + {services.arr}
      ensures service in cache && cache[service] == services
      ensures Contents() == others[service := services.arr[..services.len]]
      ensures ttls == old(ttls)[service := now + ttl]
    {
      cache := cache[service := services];
      ttls := ttls[service := now + ttl];
      ghost var target := others[service := services.arr[..services.len]];
      forall k | k in cache ensures k in target && cache[k].arr[..cache[k].len] == target[k] {
        assert k != service ==> old(Agrees(k, services.arr, others)) && cache[k] == old(cache)[k];
      }
      assert cache.Keys == target.Keys;
      SameContents(this, target);
    }

    /** `set`, at time `now`: an empty list gives up its key. */
    method Set(service: string, services: Slice, now: int, ghost others: View)
      requires Accepts(service, services, others)
      modifies this
      ensures Valid() && Repr() <= old(Repr()) + {services.arr}
      ensures Contents() == if services.len > 0 then others[service := services.arr[..services.len]] else others - {service}
      ensures service in cache ==> cache[service] == services && ttls == old(ttls)[service := now + ttl]
    {
      if 0 < services.len {
        Store(service, services, now, others);
        return;
      }
      cache := cache - {service};
      ttls := ttls - {service};
      forall k | k in cache ensures k in others && cache[k].arr[..cache[k].len] == others[k] {
        assert old(Agrees(k, services.arr, others)) && cache[k] == old(cache)[k];
      }
      assert cache.Keys == others.Keys - {service};
      SameContents(this, others - {service});
    }

    /** The removal part of update: only the array cached under `sname` changes. */
    method RemoveFrom(sname: string, p: string) returns (services: Slice)
      requires Valid()
      modifies if sname in cache then {cache[sname].arr} else {}
      ensures services.len <= services.arr.Length
      ensures services.arr[..services.len] == SkipFilter(At(old(Contents()), sname), p)
      ensures if sname in cache then services.arr == cache[sname].arr else fresh(services.arr)
      ensures sname in cache && Distinct(old(Contents())[sname]) ==>
                cache[sname].arr[..cache[sname].len] == Held(old(Contents())[sname], p)
    {
      if sname in cache {
        var len := RemoveByName(cache[sname].arr, cache[sname].len, p);
        services := Slice(cache[sname].arr, len);
      } else {
        var none := new ServiceURL[0];
        services := Slice(none, 0);
      }
    }

    /** `update`: no array but the one cached under the event's key is written to, and a delete
        leaves the list in its array. */
    method UpdateEvent(ev: Event, now: int)
      requires Valid()
      modifies this, if KeyOf(ev.url) in cache then {cache[KeyOf(ev.url)].arr} else {}
      ensures Valid() && fresh(Repr() - old(Repr()))
      ensures Contents() == UpdateView(old(Contents()), ev)
      ensures var key := KeyOf(ev.url);
              && (key in cache ==> ttls == old(ttls)[key := now + ttl])
              && (ev.action.Del? && key in cache ==> key in old(cache) && cache[key].arr == old(cache)[key].arr)
              && (ev.action.Del? && key in old(cache) && Distinct(old(Contents())[key]) ==>
                    old(cache)[key].arr[..old(cache)[key].len] == Held(old(Contents())[key], ev.url.primitive))
    {
      var sname := KeyOf(ev.url);
      ghost var before := Contents();
      var services := RemoveFrom(sname, ev.url.primitive);
      if !ev.action.Del? {
        services := AppendURL(services, ev.url);
      }
      assert forall k | k in cache && k != sname :: Agrees(k, services.arr, before);
      Set(sname, services, now, before);
    }

    /** The loop of watch over the events a watcher delivers before it fails. */
    method Watch(ds: seq<Delivery>)
      requires Valid()
      modifies this, Repr()
      ensures Valid() && fresh(Repr() - old(Repr()))
      ensures Contents() == UpdateAll(old(Contents()), Effective(ds))
    {
      for i := 0 to |ds|
        invariant Valid() && fresh(Repr() - old(Repr()))
        invariant Contents() == UpdateAll(old(Contents()), Effective(ds[..i]))
      {
        assert ds[..i + 1][..i] == ds[..i];
        if ds[i].event.action.Del? && !ds[i].connValid {
          continue;
        }
        OneMore(old(Contents()), Effective(ds[..i]), ds[i].event);
        UpdateEvent(ds[i].event, ds[i].now);
      }
      assert ds[..|ds|] == ds;
    }

    /** `get`, given the time and what the registry answers when asked. A live entry is copied out; a
        registry answer is copied into the cache and returned itself; when the registry fails, the
        cached slice itself is returned. */
    method GetServices(conf: ServiceConfig, now: int, answer: Option<Slice>) returns (s: Slice, from: Origin)
      requires Valid()
      requires answer.Some? ==> answer.value.len <= answer.value.arr.Length && answer.value.arr !in Repr()
      modifies this
      ensures Valid() && s.len <= s.arr.Length && fresh(Repr() - old(Repr()))
      ensures var key := conf.Key();
              var held := At(old(Contents()), key) != [];
              from == if held && key in old(ttls) && now - old(ttls)[key] < ttl then Copied
              else if answer.Some? then Refreshed
              else if held then Shared
              else Failed
      ensures from.Copied? ==> fresh(s.arr) && s.arr[..s.len] == At(old(Contents()), conf.Key())
      ensures from.Copied? ==> ((forall i | 0 <= i < s.len :: conf.ServiceEqual(s.arr[i])) <==> AllFor(conf, At(old(Contents()), conf.Key())))
      ensures (from.Copied? || from.Shared?) && ViewOK(old(Contents())) && PlainProtocols(old(Contents())) && '@' !in conf.protocol ==>
                forall u | u in s.arr[..s.len] :: u.protocol == conf.protocol && u.Get("interface") == conf.service
      ensures from.Refreshed? ==> answer.Some? && s == answer.value
      ensures from.Shared? ==> conf.Key() in cache && s == cache[conf.Key()]
      ensures !from.Shared? ==> s.arr !in Repr()
      ensures Contents() == if from.Refreshed? then old(Contents())[conf.Key() := s.arr[..s.len]] else old(Contents())
      ensures ttls == if from.Refreshed? then old(ttls)[conf.Key() := now + ttl] else old(ttls)
    {
      ghost var view := Contents();
      s, from := Lookup(conf, now, answer);
      if ViewOK(view) && PlainProtocols(view) && '@' !in conf.protocol {
        OwnService(view, conf);
      }
      assert forall i | 0 <= i < s.len :: s.arr[i] == s.arr[..s.len][i];
    }

    /** Its branches. */
    method Lookup(conf: ServiceConfig, now: int, answer: Option<Slice>) returns (s: Slice, from: Origin)
      requires Valid()
      requires answer.Some? ==> answer.value.len <= answer.value.arr.Length && answer.value.arr !in Repr()
      modifies this
      ensures Valid() && s.len <= s.arr.Length && fresh(Repr() - old(Repr()))
      ensures var key := conf.Key();
              var held := At(old(Contents()), key) != [];
              from == if held && key in old(ttls) && now - old(ttls)[key] < ttl then Copied
              else if answer.Some? then Refreshed
              else if held then Shared
              else Failed
      ensures from.Copied? ==> fresh(s.arr) && s.arr[..s.len] == At(old(Contents()), conf.Key())
      ensures from.Refreshed? ==> answer.Some? && s == answer.value
      ensures from.Shared? ==> conf.Key() in cache && s == cache[conf.Key()]
      ensures !from.Shared? ==> s.arr !in Repr()
      ensures Contents() == if from.Refreshed? then old(Contents())[conf.Key() := s.arr[..s.len]] else old(Contents())
      ensures ttls == if from.Refreshed? then old(ttls)[conf.Key() := now + ttl] else old(ttls)
    {
      var key := conf.Key();
      if key in cache && cache[key].len > 0 && key in ttls && now - ttls[key] < ttl {
        s := CopySlice(cache[key]);
        return s, Copied;
      }
      match answer
      case None =>
        if key in cache && cache[key].len > 0 {
          return cache[key], Shared;
        }
        var none := new ServiceURL[0];
        return Slice(none, 0), Failed;
      case Some(ss) =>
        Refresh(key, ss, now);
        return ss, Refreshed;
    }

    /** Caches a copy of what the registry answered. */
    method Refresh(key: string, ss: Slice, now: int)
      requires Valid() && ss.len <= ss.arr.Length && ss.arr !in Repr()
      modifies this
      ensures Valid() && fresh(Repr() - old(Repr())) && ss.arr !in Repr()
      ensures Contents() == old(Contents())[key := ss.arr[..ss.len]]
      ensures ttls == old(ttls)[key := now + ttl]
    {
      var copied := CopySlice(ss);
      Store(key, copied, now, Contents());
    }

    /** Any run of deliveries and gets. */
    method Run(ops: seq<Op>)
      requires Valid()
      modifies this, Repr()
      ensures Valid() && fresh(Repr() - old(Repr()))
    {
      for i := 0 to |ops|
        invariant Valid() && fresh(Repr() - old(Repr()))
      {
        match ops[i] {
          case Deliver(d) =>
            if !d.event.action.Del? || d.connValid {
              UpdateEvent(d.event, d.now);
            }
          case Get(conf, now, answer) =>
            var ss := Answer(answer);
            var s, from := GetServices(conf, now, ss);
        }
      }
    }

    /** A slice got from the cache, other than the fallback for a failing registry, keeps its contents
        through any later run of events and gets, although these shift cached arrays in place. */
    method GetThenWatch(conf: ServiceConfig, now: int, answer: Option<Slice>, ops: seq<Op>)
      returns (s: Slice, from: Origin, ghost seen: seq<ServiceURL>)
      requires Valid()
      requires answer.Some? ==> answer.value.len <= answer.value.arr.Length && answer.value.arr !in Repr()
      modifies this, Repr()
      ensures s.len <= s.arr.Length
      ensures from.Copied? ==> seen == At(old(Contents()), conf.Key())
      ensures from.Refreshed? ==> answer.Some? && s == answer.value && seen == old(answer.value.arr[..answer.value.len])
      ensures !from.Shared? ==> s.arr[..s.len] == seen
      ensures Valid()
    {
      s, from := GetServices(conf, now, answer);
      seen := s.arr[..s.len];
      Run(ops);
    }

    /** The life of an entry: one that the registry filled at `t0`, or an event updated then, is copied
        out for less than twice the configured time, since its stamp is that of its expiry. */
    method RefreshThenGet(conf: ServiceConfig, t0: int, answer: Slice, t: int) returns (first: Origin, second: Origin)
      requires Valid() && 0 < answer.len <= answer.arr.Length && answer.arr !in Repr()
      modifies this
      ensures first.Refreshed? ==> (second.Copied? <==> t - t0 < 2 * ttl)
    {
      var s0, s;
      s0, first := GetServices(conf, t0, Some(answer));
      s, second := GetServices(conf, t, None);
    }

    method UpdateThenGet(conf: ServiceConfig, t0: int, ev: Event, t: int) returns (second: Origin)
      requires Valid() && conf.Key() == KeyOf(ev.url) && !ev.action.Del?
      modifies this, Repr()
      ensures second.Copied? <==> t - t0 < 2 * ttl
    {
      UpdateEvent(ev, t0);
      var s;
      s, second := GetServices(conf, t, None);
    }

    /** What the holder of the shared fallback sees of a later delete: the elements behind the deleted
        one have moved down and the last is there twice. It sees no change if and only if the deleted
        URL was the last one, as that of a list of one is, or was not there. */
    method SharedThenDelete(conf: ServiceConfig, now: int, u: ServiceURL, later: int)
      returns (s: Slice, from: Origin, ghost seen: seq<ServiceURL>)
      requires Valid() && ViewOK(Contents()) && KeyOf(u) == conf.Key()
      modifies this, Repr()
      ensures s.len <= s.arr.Length
      ensures from.Shared? ==> seen == At(old(Contents()), conf.Key()) && s.arr[..s.len] == Held(seen, u.primitive)
      ensures from.Shared? ==> (s.arr[..s.len] == seen <==> IndexOf(seen, u.primitive) >= |seen| - 1)
    {
      s, from := GetServices(conf, now, None);
      seen := s.arr[..s.len];
      UpdateEvent(Event(Del, u), later);
      if from.Shared? {
        HeldExact(seen, u.primitive);
      }
    }
  }

  datatype Op = Deliver(d: Delivery) | Get(conf: ServiceConfig, now: int, answer: Option<seq<ServiceURL>>)

  /** The slice in which the registry answers. */
  method Answer(answer: Option<seq<ServiceURL>>) returns (ss: Option<Slice>)
    ensures ss.Some? ==> fresh(ss.value.arr) && ss.value.len == ss.value.arr.Length
  {
    match answer
    case None => return None;
    case Some(us) =>
      var arr := new ServiceURL[|us|](i requires 0 <= i < |us| => us[i]);
      return Some(Slice(arr, |us|));
  }

  /** Group and version are not part of the cache's key, so a fresh hit may hand out another
      configuration's URLs: here those of `u`, to a caller that asks for a different group. */
  method OtherGroupServed(u: ServiceURL, group: string, ttl: int, now: int) returns (s: Slice, from: Origin)
    requires group != u.Get("group") && ttl > 0
    ensures from.Copied? && s.len == 1 <= s.arr.Length && s.arr[0] == u
    ensures !u.Config().(group := group).ServiceEqual(u)
  {
    var c := new CacheSelector(ttl);
    c.UpdateEvent(Event(Add, u), now);
    assert UpdateView(map[], Event(Add, u)) == map[KeyOf(u) := [u]] by {
      assert [] + [u] == [u];
    }
    s, from := c.GetServices(u.Config().(group := group), now, None);
  }

  lemma SameContents(c: CacheSelector, view: View)
    requires c.Valid() && c.cache.Keys == view.Keys
    requires forall k | k in c.cache :: c.cache[k].arr[..c.cache[k].len] == view[k]
    ensures c.Contents() == view
  {
  }

  /** The exception: the fallback slice is the cached one, and a later delete shifts it under its
      holder's eyes. */
  method SharedFallbackChanges(a: ServiceURL, b: ServiceURL, conf: ServiceConfig) returns (s: Slice, before: seq<ServiceURL>)
    requires a.primitive != b.primitive && a.Config() == conf == b.Config()
    ensures before == [a, b] && s.len == 2 <= s.arr.Length && s.arr[0] == b
  {
    var c := TwoCached(a, b, conf);
    var from;
    s, from := c.GetServices(conf, 100, None);
    before := s.arr[..s.len];
    c.UpdateEvent(Event(Del, a), 100);
    assert s.arr[..1] == c.Contents()[conf.Key()];
  }

  method TwoCached(a: ServiceURL, b: ServiceURL, conf: ServiceConfig) returns (c: CacheSelector)
    requires a.primitive != b.primitive && a.Config() == conf == b.Config()
    ensures fresh(c) && fresh(c.Repr()) && c.Valid() && c.Contents() == map[conf.Key() := [a, b]]
    ensures UpdateView(c.Contents(), Event(Del, a)) == map[conf.Key() := [b]]
    ensures conf.Key() in c.ttls && c.ttls[conf.Key()] == 10 && c.ttl == 10
  {
    c := new CacheSelector(10);
    AddAddDelete(a, b, conf.Key());
    c.UpdateEvent(Event(Add, a), 0);
    c.UpdateEvent(Event(Add, b), 0);
  }

  lemma AddAddDelete(a: ServiceURL, b: ServiceURL, key: string)
    requires a.primitive != b.primitive && KeyOf(a) == key == KeyOf(b)
    ensures UpdateView(map[], Event(Add, a)) == map[key := [a]]
    ensures UpdateView(map[key := [a]], Event(Add, b)) == map[key := [a, b]]
    ensures UpdateView(map[key := [a, b]], Event(Del, a)) == map[key := [b]]
  {
    SkipFilterPair(a, b);
    assert [] + [a] == [a] && [a] + [b] == [a, b];
  }

  lemma SkipFilterPair(a: ServiceURL, b: ServiceURL)
    requires a.primitive != b.primitive
    ensures SkipFilter([a], b.primitive) == [a]
    ensures SkipFilter([a, b], a.primitive) == [b]
  {
    assert [a][1..] == [] && [a, b][2..] == [];
  }
}
