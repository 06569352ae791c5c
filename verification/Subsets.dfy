/** One subset of a cluster's hosts, kept up to date from the lists of added and removed hosts
    (hostSubsetImpl and PrioritySubsetImpl in pkg/upstream/cluster/subsetlbimpl.go). */
module Subsets {
  import opened Hosts
  import opened HostDiff

  // A vector of metadata key-value pairs, in selector order.
  type Pairs = seq<(string, string)>

  // The closures that subsets filter with: every host, or the hosts that carry all the pairs.
  datatype HostPredicate = AnyHost | Carrying(pairs: Pairs)

  predicate Carries(h: Host, pairs: Pairs) {
    forall i :: 0 <= i < |pairs| ==> pairs[i].0 in h.metadata && h.metadata[pairs[i].0] == pairs[i].1
  }

  predicate Holds(p: HostPredicate, h: Host) {
    match p
    case AnyHost => true
    case Carrying(pairs) => Carries(h, pairs)
  }

  method HostMatches(pairs: Pairs, h: Host) returns (r: bool)
    ensures r <==> Carries(h, pairs)
  {
    for i := 0 to |pairs|
      invariant Carries(h, pairs[..i])
    {
      assert pairs[..i + 1][i] == pairs[i];
      if pairs[i].0 in h.metadata {
        if h.metadata[pairs[i].0] != pairs[i].1 {
          return false;
        }
      } else {
        return false;
      }
    }
    assert pairs[..|pairs|] == pairs;
    return true;
  }

  // The naive definition of a subset: exactly the members of all that satisfy p, each once.
  ghost predicate ExactSubset(hosts: seq<Host>, p: HostPredicate, all: seq<Host>) {
    && DistinctAddresses(hosts)
    && (forall h :: h in hosts ==> h in all && Holds(p, h))
    && (forall h :: h in all && Holds(p, h) ==> h in hosts)
  }

  function Filter(p: HostPredicate, hosts: seq<Host>): seq<Host> {
    if hosts == [] then []
    else
      var last := |hosts| - 1;
      var front := Filter(p, hosts[..last]);
      if Holds(p, hosts[last]) then front + [hosts[last]] else front
  }

  // Append every added host whose address is not there yet.
  function Merged(hosts: seq<Host>, added: seq<Host>): seq<Host> {
    if added == [] then hosts
    else
      var last := |added| - 1;
      var front := Merged(hosts, added[..last]);
      if HasAddress(front, added[last].address) then front else front + [added[last]]
  }

  function FinalSubset(hosts: seq<Host>, added: seq<Host>, removed: seq<Host>): seq<Host> {
    Without(Merged(hosts, added), removed)
  }

  lemma {:induction false} FilterMembers(p: HostPredicate, hosts: seq<Host>)
    ensures forall h :: h in Filter(p, hosts) ==> h in hosts && Holds(p, h)
    ensures forall h :: h in hosts && Holds(p, h) ==> h in Filter(p, hosts)
  {
    if hosts != [] {
      var last := |hosts| - 1;
      assert hosts == hosts[..last] + [hosts[last]];
      FilterMembers(p, hosts[..last]);
    }
  }

  // Filtering keeps the order.
  lemma {:induction false} FilterAppend(p: HostPredicate, a: seq<Host>, b: seq<Host>)
    ensures Filter(p, a + b) == Filter(p, a) + Filter(p, b)
    decreases |b|
  {
    if b == [] {
      assert a + b == a;
    } else {
      var last := |b| - 1;
      assert (a + b)[..|a + b| - 1] == a + b[..last];
      FilterAppend(p, a, b[..last]);
    }
  }

  // New hosts go to the end, in their order, and what was there stays in place.
  lemma {:induction false} MergedAppend(hosts: seq<Host>, added: seq<Host>)
    ensures hosts <= Merged(hosts, added)
    ensures (forall i, j :: 0 <= i < |added| && 0 <= j < |hosts| ==> added[i].address != hosts[j].address) && DistinctAddresses(added)
            ==> Merged(hosts, added) == hosts + added
    decreases |added|
  {
    if added != [] {
      var last := |added| - 1;
      MergedAppend(hosts, added[..last]);
      if (forall i, j :: 0 <= i < |added| && 0 <= j < |hosts| ==> added[i].address != hosts[j].address) && DistinctAddresses(added) {
        var front := hosts + added[..last];
        forall i | 0 <= i < |front| ensures front[i].address != added[last].address {
          if i >= |hosts| { assert front[i] == added[i - |hosts|]; }
        }
      }
    }
  }

  lemma {:induction false} MergedMembers(hosts: seq<Host>, added: seq<Host>)
    requires DistinctAddresses(hosts)
    ensures DistinctAddresses(Merged(hosts, added))
    ensures forall h :: h in hosts ==> h in Merged(hosts, added)
    ensures forall h :: h in Merged(hosts, added) ==> h in hosts || h in added
    ensures forall h :: h in added ==> HasAddress(Merged(hosts, added), h.address)
  {
    if added != [] {
      var last := |added| - 1;
      assert added == added[..last] + [added[last]];
      MergedMembers(hosts, added[..last]);
      HasAddressSnoc(Merged(hosts, added[..last]), added[last]);
    }
  }

  lemma {:induction false} WithoutDistinct(xs: seq<Host>, ys: seq<Host>)
    requires DistinctAddresses(xs)
    ensures DistinctAddresses(Without(xs, ys))
  {
    if xs != [] {
      WithoutDistinct(xs[..|xs| - 1], ys);
      WithoutMembers(xs[..|xs| - 1], ys);
    }
  }

  /** The incremental update agrees with the naive definition.  The subset may be the exact one for the hosts
      before the membership change, or already the exact one after it: every visit after the first is of that
      kind, because the callbacks pass the whole lists for each host of a change. */
  lemma UpdateKeepsExact(hosts: seq<Host>, p: HostPredicate, before: seq<Host>, added: seq<Host>, removed: seq<Host>, after: seq<Host>)
    requires Moves(before, added, removed, after)
    requires ExactSubset(hosts, p, before) || ExactSubset(hosts, p, after)
    ensures ExactSubset(FinalSubset(hosts, Filter(p, added), Filter(p, removed)), p, after)
  {
    hide Filter, Merged, Without, HasAddress;
    var fa, fr := Filter(p, added), Filter(p, removed);
    var merged := Merged(hosts, fa);
    FilterMembers(p, added);
    FilterMembers(p, removed);
    MergedMembers(hosts, fa);
    WithoutMembers(merged, fr);
    WithoutDistinct(merged, fr);
    var result := FinalSubset(hosts, fa, fr);
    forall h | h in result ensures h in after && Holds(p, h) {
      if h !in after { MemberHasAddress(fr, h); }
    }
    forall h | h in after && Holds(p, h) ensures h in result {
      if HasAddress(fr, h.address) {
        var g := HostAt(fr, h.address);
        MemberHasAddress(after, h);
        assert false;
      }
      if h !in hosts {
        assert h in fa;
        var g := HostAt(merged, h.address);
        if g in hosts && g in before { MemberHasAddress(before, g); }
        SameAddressSameHost(after, g, h);
      }
    }
  }

  // A membership change that touches no member of the subset leaves it exact.
  lemma UntouchedStaysExact(hosts: seq<Host>, p: HostPredicate, before: seq<Host>, added: seq<Host>, removed: seq<Host>, after: seq<Host>)
    requires Moves(before, added, removed, after)
    requires forall h :: h in added || h in removed ==> !Holds(p, h)
    requires ExactSubset(hosts, p, before)
    ensures ExactSubset(hosts, p, after)
  {
  }

  // A subset built from the whole host list is exact.
  lemma FreshIsExact(p: HostPredicate, all: seq<Host>)
    requires DistinctAddresses(all)
    ensures ExactSubset(FinalSubset([], Filter(p, all), Filter(p, [])), p, all)
  {
    forall h | h in all ensures !HasAddress([], h.address) {}
    UpdateKeepsExact([], p, [], all, [], all);
  }

  // Two exact subsets of the same list are permutations of each other.
  lemma ExactIsUnique(xs: seq<Host>, ys: seq<Host>, p: HostPredicate, all: seq<Host>)
    requires ExactSubset(xs, p, all) && ExactSubset(ys, p, all)
    ensures multiset(xs) == multiset(ys)
  {
    SameMembersPermute(xs, ys);
  }

  /** One pass of the removal loop of GetFinalHosts.  The range clause fixes its length and its view of the
      backing array before the first iteration, and the body cuts the same backing array under it: after a cut
      at i the loop skips the element that moved into position i and later reads the stale last position. */
  method RemoveWhileRanging(a: array<Host>, n: nat, host: Host) returns (rest: nat)
    requires n <= a.Length && DistinctAddresses(a[..n])
    modifies a
    ensures rest <= n && a[..rest] == Without(old(a[..n]), [host])
  {
    hide Without, HasAddress;
    ghost var before := a[..n];
    ghost var j := n;
    rest := n;
    for i := 0 to n
      invariant if j == n then rest == n && a[..n] == before && (forall m :: 0 <= m < i ==> before[m].address != host.address)
                else j < i && before[j].address == host.address && rest == n - 1 && a[..rest] == Cut(before, j) && a[rest] == before[rest]
    {
      assert j == n ==> a[i] == a[..n][i];
      assert j < n && i < rest ==> a[i] == a[..rest][i] == before[i + 1];
      if host.address == a[i].address {
        CutAt(a, rest, i);
        assert a[n - 1] == a[n - 1..][0];
        rest, j := rest - 1, i;
      }
    }
    if j == n {
      KeepsAll(before, host);
    } else {
      RemovesOne(before, j, host);
    }
  }

  lemma {:induction false} KeepsAll(xs: seq<Host>, y: Host)
    requires forall i :: 0 <= i < |xs| ==> xs[i].address != y.address
    ensures Without(xs, [y]) == xs
  {
    if xs != [] { KeepsAll(xs[..|xs| - 1], y); }
  }

  lemma {:induction false} RemovesOne(xs: seq<Host>, j: nat, y: Host)
    requires DistinctAddresses(xs) && j < |xs| && xs[j].address == y.address
    ensures Without(xs, [y]) == Cut(xs, j)
  {
    var last := |xs| - 1;
    assert [y][0] == y;
    if j < last {
      RemovesOne(xs[..last], j, y);
    } else {
      KeepsAll(xs[..last], y);
    }
  }

  // GetFinalHosts, on the backing array of the slice it grows and then cuts in place.
  method GetFinalHosts(current: seq<Host>, hostsAdded: seq<Host>, hostsRemoved: seq<Host>) returns (r: seq<Host>)
    requires DistinctAddresses(current)
    ensures r == FinalSubset(current, hostsAdded, hostsRemoved)
  {
    var hosts := current;
    for k := 0 to |hostsAdded|
      invariant hosts == Merged(current, hostsAdded[..k])
    {
      var host := hostsAdded[k];
      assert hostsAdded[..k + 1][..k] == hostsAdded[..k];
      var found := false;
      for i := 0 to |hosts|
        invariant found <==> exists m :: 0 <= m < i && hosts[m].address == host.address
      {
        if host.address == hosts[i].address {
          found := true;
        }
      }
      if !found {
        hosts := hosts + [host];
      }
    }
    assert hostsAdded[..|hostsAdded|] == hostsAdded;
    MergedMembers(current, hostsAdded);
    r := RemoveAll(hosts, hostsRemoved);
  }

  method RemoveAll(hosts: seq<Host>, hostsRemoved: seq<Host>) returns (r: seq<Host>)
    requires DistinctAddresses(hosts)
    ensures r == Without(hosts, hostsRemoved)
  {
    hide Without;
    var a := new Host[|hosts|](i requires 0 <= i < |hosts| => hosts[i]);
    var n: nat := |hosts|;
    WithoutNone(hosts);
    assert hostsRemoved[..0] == [];
    for k := 0 to |hostsRemoved|
      invariant n <= a.Length && a[..n] == Without(hosts, hostsRemoved[..k])
    {
      WithoutDistinct(hosts, hostsRemoved[..k]);
      WithoutSnoc(hosts, hostsRemoved[..k], hostsRemoved[k]);
      assert hostsRemoved[..k + 1] == hostsRemoved[..k] + [hostsRemoved[k]];
      n := RemoveWhileRanging(a, n, hostsRemoved[k]);
    }
    assert hostsRemoved[..|hostsRemoved|] == hostsRemoved;
    r := a[..n];
  }

  method FilterHosts(p: HostPredicate, hosts: seq<Host>) returns (r: seq<Host>)
    ensures r == Filter(p, hosts)
  {
    r := [];
    for k := 0 to |hosts|
      invariant r == Filter(p, hosts[..k])
    {
      assert hosts[..k + 1][..k] == hosts[..k];
      var keep := true;
      if p.Carrying? {
        keep := HostMatches(p.pairs, hosts[k]);
      }
      if keep {
        r := r + [hosts[k]];
      }
    }
    assert hosts[..|hosts|] == hosts;
  }

  method HealthyHosts(hosts: seq<Host>) returns (r: seq<Host>)
    ensures r == Healthy(hosts)
  {
    r := [];
    for k := 0 to |hosts|
      invariant r == Healthy(hosts[..k])
    {
      assert hosts[..k + 1][..k] == hosts[..k];
      if hosts[k].Health() {
        r := r + [hosts[k]];
      }
    }
    assert hosts[..|hosts|] == hosts;
  }

  /** The hosts of one trie entry or of the fallback.  Only priority 0 is ever used by a cluster, so the subset
      holds one host set. */
  class PrioritySubset {
    const predicateFunc: HostPredicate
    var hosts: seq<Host>
    var healthyHosts: seq<Host>

    ghost predicate Exact(all: seq<Host>)
      reads this
    {
      && ExactSubset(hosts, predicateFunc, all)
      && forall h :: h in healthyHosts ==> h in hosts
    }

    lemma EmptyIsUnhealthy(all: seq<Host>)
      requires Exact(all)
      ensures hosts == [] ==> healthyHosts == []
    {
      if healthyHosts != [] { assert healthyHosts[0] in hosts; }
    }

    constructor (predicateFunc: HostPredicate, original: seq<Host>)
      requires DistinctAddresses(original)
      ensures this.predicateFunc == predicateFunc && Exact(original)
      ensures hosts == FinalSubset([], Filter(predicateFunc, original), []) && healthyHosts == Healthy(hosts)
    {
      this.predicateFunc := predicateFunc;
      hosts, healthyHosts := [], [];
      new;
      FreshIsExact(predicateFunc, original);
      Update(original, []);
      HealthyMembers(hosts);
    }

    // UpdateHostSubset: filter both lists, merge and remove, and take a snapshot of the healthy hosts.
    method Update(hostsAdded: seq<Host>, hostsRemoved: seq<Host>)
      requires DistinctAddresses(hosts)
      modifies this
      ensures hosts == FinalSubset(old(hosts), Filter(predicateFunc, hostsAdded), Filter(predicateFunc, hostsRemoved))
      ensures healthyHosts == Healthy(hosts)
    {
      var filteredAdded := FilterHosts(predicateFunc, hostsAdded);
      var filteredRemoved := FilterHosts(predicateFunc, hostsRemoved);
      var finalHosts := GetFinalHosts(hosts, filteredAdded, filteredRemoved);
      var healthy := HealthyHosts(finalHosts);
      hosts, healthyHosts := finalHosts, healthy;
    }

    // Update, for a membership change from before to after.
    method Follow(hostsAdded: seq<Host>, hostsRemoved: seq<Host>, ghost before: seq<Host>, ghost after: seq<Host>)
      requires Moves(before, hostsAdded, hostsRemoved, after)
      requires Exact(before) || Exact(after)
      modifies this
      ensures Exact(after) && healthyHosts == Healthy(hosts)
    {
      UpdateKeepsExact(hosts, predicateFunc, before, hostsAdded, hostsRemoved, after);
      Update(hostsAdded, hostsRemoved);
      HealthyMembers(hosts);
    }
  }
}
