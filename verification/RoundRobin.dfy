/**
  * The round-robin selection mode (selector/mode.go).
  */
module RoundRobin {
  import opened GoBase

  datatype Pick<T> = Node(node: T) | NoneAvailable | Panicked

  /** Go's `%`, which truncates: a negative dividend has a remainder that is not positive. */
  function Rem(a: int, n: int): int
    requires n > 0
  {
    if a >= 0 then a % n else -((-a) % n)
  }

  /** The closure returned by roundRobin; `i` is the variable it captures. */
  class Next<T> {
    const services: seq<T>
    var i: int64

    constructor (services: seq<T>)
      ensures this.services == services && i == 0
    {
      this.services := services;
      i := 0;
    }

    /** A negative sum that the number of services does not divide is a negative index. */
    method Call(ID: int64) returns (r: Pick<T>)
      modifies this
      ensures services == [] <==> r.NoneAvailable?
      ensures r.Panicked? <==> services != [] && Wrap64(ID + old(i)) < 0 && Wrap64(ID + old(i)) % |services| != 0
      ensures r.Node? ==> r.node == services[Wrap64(ID + old(i)) % |services|]
      ensures i == if r.Node? then Wrap64(old(i) + 1) else old(i)
    {
      if |services| == 0 {
        return NoneAvailable;
      }
      var at := Rem(Wrap64(ID + i), |services|);
      NegativeRem(Wrap64(ID + i), |services|);
      if at < 0 {
        return Panicked;
      }
      r := Node(services[at]);
      i := Wrap64(i + 1);
    }

    /** `k` calls with one ID: as long as the sums stay within int64, service number j is chosen
        k / n times, and once more if it is among the k % n next in turn. */
    method Calls(ID: int64, k: nat) returns (nodes: seq<T>)
      requires services != [] && 0 <= ID && 0 <= i && ID + i + k <= 0x7FFF_FFFF_FFFF_FFFF
      modifies this
      ensures i == old(i) + k
      ensures InTurn(services, ID + old(i), nodes) && |nodes| == k
    {
      nodes := [];
      for t := 0 to k
        invariant i == old(i) + t && |nodes| == t
        invariant InTurn(services, ID + old(i), nodes)
      {
        var r := Call(ID);
        nodes := nodes + [r.node];
      }
    }
  }

  lemma NegativeRem(a: int, n: int)
    requires n > 0
    ensures Rem(a, n) < 0 <==> a < 0 && a % n != 0
    ensures Rem(a, n) >= 0 ==> Rem(a, n) == a % n
  {
    if a < 0 {
      var q, r := (-a) / n, (-a) % n;
      assert -a == q * n + r;
      if r == 0 {
        Unique(a, n, -q, 0);
      } else {
        assert a == (-q - 1) * n + (n - r);
        Unique(a, n, -q - 1, n - r);
      }
    }
  }

  lemma Unique(a: int, n: int, q: int, r: int)
    requires n > 0 && a == q * n + r && 0 <= r < n
    ensures a / n == q && a % n == r
  {
    OneQuotient(n, q, r, a / n, a % n);
  }

  lemma OneQuotient(n: int, q: int, r: int, q': int, r': int)
    requires 0 <= r < n && 0 <= r' < n && q * n + r == q' * n + r'
    ensures q == q' && r == r'
  {
    Grows(q - q', n);
    Grows(q' - q, n);
    assert (q - q') * n == r' - r && (q' - q) * n == r - r';
  }

  lemma Grows(d: int, n: int)
    requires n > 0
    ensures d >= 1 ==> d * n >= n
  {
    if d >= 1 {
      assert (d - 1) * n >= 0;
      assert (d - 1) * n == d * n - n;
    }
  }

  /** Selection from position `start` on: a single closure called with one ID, or a fresh closure for
      each of consecutive IDs. */
  predicate InTurn<T(==)>(services: seq<T>, start: nat, nodes: seq<T>)
    requires services != []
  {
    forall t | 0 <= t < |nodes| :: nodes[t] == services[(start + t) % |services|]
  }

  /** The turns of service j among `k` selections: its first is after (j - start) mod n others. */
  function Share(n: nat, start: nat, k: nat, j: nat): nat
    requires j < n
  {
    k / n + if (j - start) % n < k % n then 1 else 0
  }

  lemma NextTurn(n: nat, start: nat, k: nat, j: nat)
    requires j < n
    ensures Share(n, start, k + 1, j) == Share(n, start, k, j) + if (start + k) % n == j then 1 else 0
  {
    var q, r := k / n, k % n;
    assert k == q * n + r;
    if r == n - 1 {
      assert k + 1 == (q + 1) * n + 0;
      Unique(k + 1, n, q + 1, 0);
    } else {
      assert k + 1 == q * n + (r + 1);
      Unique(k + 1, n, q, r + 1);
    }
    Meets(n, start, k, j);
  }

  lemma Meets(n: nat, start: nat, k: nat, j: nat)
    requires j < n
    ensures (start + k) % n == j <==> (j - start) % n == k % n
  {
    var p, d := (j - start) / n, (j - start) % n;
    var q, r := k / n, k % n;
    assert j - start == p * n + d && k == q * n + r;
    if d == r {
      assert start + k == (q - p) * n + j;
      Unique(start + k, n, q - p, j);
    }
    if (start + k) % n == j {
      var m := (start + k) / n;
      assert start + k == m * n + j;
      assert j - start == (q - m) * n + r;
      Unique(j - start, n, q - m, r);
    }
  }

  /** Fairness: every service is chosen its share, which is k / n rounded down or up. */
  lemma {:induction false} Fair<T>(services: seq<T>, start: nat, nodes: seq<T>, j: nat)
    requires j < |services| && (forall a, b | 0 <= a < b < |services| :: services[a] != services[b])
    requires InTurn(services, start, nodes)
    ensures multiset(nodes)[services[j]] == Share(|services|, start, |nodes|, j)
    ensures |nodes| / |services| <= multiset(nodes)[services[j]] <= (|nodes| + |services| - 1) / |services|
    decreases |nodes|
  {
    var n := |services|;
    if nodes != [] {
      var k := |nodes| - 1;
      var first := nodes[..k];
      Fair(services, start, first, j);
      NextTurn(n, start, k, j);
      assert nodes == first + [nodes[k]];
      var at := (start + k) % n;
      assert nodes[k] == services[at];
      assert nodes[k] == services[j] <==> at == j;
    }
    Bounds(n, start, |nodes|, j);
  }

  lemma Bounds(n: nat, start: nat, k: nat, j: nat)
    requires j < n
    ensures k / n <= Share(n, start, k, j) <= (k + n - 1) / n
  {
    var q, r := k / n, k % n;
    assert k == q * n + r;
    if r == 0 {
      Unique(k + n - 1, n, q, n - 1);
    } else {
      assert k + n - 1 == (q + 1) * n + (r - 1);
      Unique(k + n - 1, n, q + 1, r - 1);
    }
  }

  /** A whole round visits every service exactly once. */
  lemma EachOnce<T>(services: seq<T>, start: nat, nodes: seq<T>)
    requires services != [] && (forall a, b | 0 <= a < b < |services| :: services[a] != services[b])
    requires InTurn(services, start, nodes) && |nodes| == |services|
    ensures multiset(nodes) == multiset(services)
  {
    forall t | 0 <= t < |services| ensures services[t] == services[t % |services|] {
      Unique(t, |services|, 0, t);
    }
    assert InTurn(services, 0, services);
    forall x ensures multiset(nodes)[x] == multiset(services)[x] {
      if x in services {
        var j :| 0 <= j < |services| && services[j] == x;
        Fair(services, start, nodes, j);
        Fair(services, 0, services, j);
        OneRound(|services|, start, j);
        OneRound(|services|, 0, j);
      } else {
        assert x !in nodes;
      }
    }
  }

  lemma OneRound(n: nat, start: nat, j: nat)
    requires j < n
    ensures Share(n, start, n, j) == 1
  {
    Unique(n, n, 1, 0);
  }

  /** A fresh closure per request, as the client makes them: over n consecutive request IDs every
      service is chosen exactly once. */
  method FreshCalls<T>(services: seq<T>, first: int64) returns (nodes: seq<T>)
    requires services != [] && 0 <= first && first + |services| <= 0x7FFF_FFFF_FFFF_FFFF
    requires forall a, b | 0 <= a < b < |services| :: services[a] != services[b]
    ensures multiset(nodes) == multiset(services)
  {
    nodes := [];
    for t := 0 to |services|
      invariant |nodes| == t && InTurn(services, first, nodes)
    {
      var next := new Next(services);
      var r := next.Call(first + t);
      nodes := nodes + [r.node];
    }
    EachOnce(services, first, nodes);
  }
}
