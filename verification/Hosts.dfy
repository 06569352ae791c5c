/** Upstream hosts and lists of hosts.

    A host is an object: its address and metadata are fixed when it is built, while its weight and its
    health flags change in place.  Functions over lists of hosts that only look at the fixed fields
    therefore need no reads clause. */
module Hosts {

  class Host {
    const address: string
    const metadata: map<string, string>
    var weight: nat
    var healthFlags: bv64

    constructor (address: string, metadata: map<string, string>, weight: nat)
      ensures this.address == address && this.metadata == metadata && this.weight == weight && healthFlags == 0
    {
      this.address := address;
      this.metadata := metadata;
      this.weight := weight;
      healthFlags := 0;
    }

    predicate Health()
      reads this
    {
      healthFlags == 0
    }
  }

  predicate HasAddress(hosts: seq<Host>, address: string) {
    exists i :: 0 <= i < |hosts| && hosts[i].address == address
  }

  ghost predicate DistinctAddresses(hosts: seq<Host>) {
    forall i, j :: 0 <= i < j < |hosts| ==> hosts[i].address != hosts[j].address
  }

  // The first host with the given address.
  function HostAt(hosts: seq<Host>, address: string): (h: Host)
    requires HasAddress(hosts, address)
    ensures h in hosts && h.address == address
  {
    if hosts[0].address == address then hosts[0] else HostAt(hosts[1..], address)
  }

  lemma MemberHasAddress(hosts: seq<Host>, h: Host)
    requires h in hosts
    ensures HasAddress(hosts, h.address)
  {
    var i :| 0 <= i < |hosts| && hosts[i] == h;
    assert hosts[i].address == h.address;
  }

  lemma HasAddressSnoc(front: seq<Host>, h: Host)
    ensures forall a :: HasAddress(front + [h], a) <==> HasAddress(front, a) || h.address == a
  {
    var all := front + [h];
    forall a ensures HasAddress(all, a) <==> HasAddress(front, a) || h.address == a {
      if HasAddress(front, a) {
        var i :| 0 <= i < |front| && front[i].address == a;
        assert all[i].address == a;
      } else if h.address == a {
        assert all[|front|].address == a;
      }
    }
  }

  lemma SameAddressSameHost(hosts: seq<Host>, g: Host, h: Host)
    requires DistinctAddresses(hosts) && g in hosts && h in hosts && g.address == h.address
    ensures g == h
  {
    var i :| 0 <= i < |hosts| && hosts[i] == g;
    var j :| 0 <= j < |hosts| && hosts[j] == h;
  }

  // Lists of hosts with distinct addresses hold each host once, so the same members means a permutation.
  lemma {:induction false} SameMembersPermute(xs: seq<Host>, ys: seq<Host>)
    requires DistinctAddresses(xs) && DistinctAddresses(ys)
    requires forall h :: h in xs <==> h in ys
    ensures multiset(xs) == multiset(ys)
  {
    forall h: Host
      ensures multiset(xs)[h] == multiset(ys)[h]
    {
      CountsOnce(xs, h);
      CountsOnce(ys, h);
    }
  }

  lemma {:induction false} CountsOnce(xs: seq<Host>, h: Host)
    requires DistinctAddresses(xs)
    ensures multiset(xs)[h] == if h in xs then 1 else 0
  {
    if xs != [] {
      var last := |xs| - 1;
      assert xs == xs[..last] + [xs[last]];
      CountsOnce(xs[..last], h);
    }
  }

  // The hosts that are healthy now, in order.
  function Healthy(hosts: seq<Host>): seq<Host>
    reads set h | h in hosts
  {
    if hosts == [] then []
    else
      var last := |hosts| - 1;
      Healthy(hosts[..last]) + if hosts[last].Health() then [hosts[last]] else []
  }

  lemma {:induction false} HealthyAppend(a: seq<Host>, b: seq<Host>)
    ensures Healthy(a + b) == Healthy(a) + Healthy(b)
    decreases |b|
  {
    if b == [] {
      assert a + b == a;
    } else {
      var last := |b| - 1;
      assert (a + b)[..|a + b| - 1] == a + b[..last];
      HealthyAppend(a, b[..last]);
    }
  }

  lemma {:induction false} HealthyMembers(hosts: seq<Host>)
    ensures forall h :: h in Healthy(hosts) <==> h in hosts && h.Health()
  {
    if hosts != [] {
      var last := |hosts| - 1;
      assert hosts == hosts[..last] + [hosts[last]];
      HealthyMembers(hosts[..last]);
    }
  }

  function Cut<T>(s: seq<T>, i: nat): seq<T>
    requires i < |s|
  {
    s[..i] + s[i + 1..]
  }

  /** append(a[:i], a[i+1:]...) on the first n elements of a backing array: everything after i moves down by
      one, and position n - 1 keeps its old value, which longer slice headers can still see. */
  method CutAt<T>(a: array<T>, n: nat, i: nat)
    requires i < n <= a.Length
    modifies a
    ensures a[..n - 1] == Cut(old(a[..n]), i)
    ensures a[n - 1..] == old(a[n - 1..])
  {
    for k := i to n - 1
      invariant a[..i] == old(a[..i])
      invariant forall m :: i <= m < k ==> a[m] == old(a[m + 1])
      invariant a[k..] == old(a[k..])
    {
      a[k] := a[k + 1];
    }
  }
}
