/** A cluster with a subset load balancer, from configuration to whole runs of membership updates
    (simpleInMemCluster in pkg/upstream/cluster/concreteclusters.go). */
module Cluster {
  import opened Options
  import opened Hosts
  import opened HostDiff
  import opened Subsets
  import opened SubsetBalancer
  import opened SortedKeys
  import opened SubsetTrie

  // The host list after one update: the old list, object by object, unless an address comes or goes.
  function NextHosts(newHosts: seq<Host>, current: seq<Host>): seq<Host> {
    if Added(newHosts, current) == [] && Removed(newHosts, current) == [] then current else FinalHosts(newHosts, current)
  }

  // And after all updates on a fresh cluster.
  function HostsAfter(updates: seq<seq<Host>>): seq<Host> {
    if updates == [] then [] else NextHosts(updates[|updates| - 1], HostsAfter(updates[..|updates| - 1]))
  }

  class SimpleInMemCluster {
    var hosts: seq<Host>
    const hostSet: HostSet
    const lb: SubsetLoadBalancer

    ghost predicate Valid()
      reads this, hostSet, lb, lb.trie, lb.trie.index.Values, lb.subsets.Values, lb.fallbackSubset
    {
      && lb.original == hostSet && hostSet.hosts == hosts && hostSet.healthyHosts == hosts
      && DistinctAddresses(hosts)
      && lb.Valid(hosts)
      && (lb.fallbackSubset != null <==> lb.fallBackPolicy != NoFallBack)
      && forall s :: s in lb.subSetKeys ==> StrictlySorted(s)
    }

    constructor (fallBackPolicy: FallBackPolicy, defaultSubset: Pairs, subsetSelectors: seq<seq<string>>)
      ensures Valid() && hosts == []
      ensures lb.fallBackPolicy == fallBackPolicy && lb.defaultSubset == defaultSubset
      ensures forall keys :: Listed(lb.subSetKeys, keys) <==> Listed(subsetSelectors, keys)
      ensures lb.fallbackSubset != null ==> lb.Snapshot()
      ensures fresh(hostSet) && fresh(lb) && fresh(lb.trie)
      ensures forall q :: q in lb.trie.index ==> fresh(lb.trie.index[q])
      ensures forall q :: q in lb.subsets ==> fresh(lb.subsets[q])
      ensures lb.fallbackSubset != null ==> fresh(lb.fallbackSubset)
    {
      hosts := [];
      var set0 := new HostSet();
      var keys := GenerateSubsetKeys(subsetSelectors);
      hostSet := set0;
      lb := new SubsetLoadBalancer(fallBackPolicy, defaultSubset, keys, set0);
    }

    /** UpdateHosts.  After every call the cluster's addresses are those of the new list, and every subset agrees
        with the naive filter over the new hosts. */
    method UpdateHosts(newHosts: seq<Host>)
      requires Valid()
      modifies this, hostSet, lb, lb.trie, lb.trie.index.Values, lb.subsets.Values, lb.fallbackSubset, (set h | h in hosts)`weight
      ensures Valid()
      ensures forall a :: HasAddress(hosts, a) <==> HasAddress(newHosts, a)
      ensures hosts == NextHosts(newHosts, old(hosts))
      ensures (forall a :: HasAddress(old(hosts), a) <==> HasAddress(newHosts, a)) ==> hosts == old(hosts)
      ensures forall h :: h in hosts ==> h in newHosts || h in old(hosts)
      ensures forall h :: h in old(hosts) ==>
                            h.weight == if HasAddress(newHosts, h.address) then old(HostAt(newHosts, h.address).weight) else old(h.weight)
      ensures lb.Grew() && (lb.fallbackSubset != old(lb.fallbackSubset) ==> fresh(lb.fallbackSubset))
      ensures lb.fallbackSubset != null && (hosts != old(hosts) || old(lb.fallbackSubset != null ==> lb.Snapshot())) ==> lb.Snapshot()
    {
      hide SubsetLoadBalancer.Valid, FinalHosts, Added, Removed;
      var changed, finalHosts, hostsAdded, hostsRemoved := UpdateDynamicHostList(newHosts, hosts);
      DiffMoves(newHosts, hosts);
      DiffChanges(newHosts, hosts);
      if changed {
        Publish(finalHosts, hostsAdded, hostsRemoved);
      }
    }

    // Replace the host list and the host set of priority 0, which calls the balancer back.
    method Publish(finalHosts: seq<Host>, hostsAdded: seq<Host>, hostsRemoved: seq<Host>)
      requires Valid() && Moves(hosts, hostsAdded, hostsRemoved, finalHosts)
      modifies this, hostSet, lb, lb.trie, lb.trie.index.Values, lb.subsets.Values, lb.fallbackSubset
      ensures Valid() && hosts == finalHosts
      ensures lb.Grew() && (lb.fallbackSubset != old(lb.fallbackSubset) ==> fresh(lb.fallbackSubset))
      ensures lb.fallbackSubset != null ==> lb.Snapshot()
    {
      hide SubsetLoadBalancer.Valid;
      hosts := finalHosts;
      hostSet.hosts, hostSet.healthyHosts := hosts, hosts;
      lb.Update(hostsAdded, hostsRemoved, old(hosts));
    }

    lemma FallbackHolds()
      requires Valid()
      ensures lb.fallbackSubset == null <==> lb.fallBackPolicy == NoFallBack
      ensures lb.fallBackPolicy == AnyEndPoint ==> forall h :: h in lb.fallbackSubset.hosts <==> h in hosts
      ensures lb.fallBackPolicy == DefaultSubset ==> forall h :: h in lb.fallbackSubset.hosts <==>
                h in hosts && forall k, v :: (k, v) in lb.defaultSubset ==> k in h.metadata && h.metadata[k] == v
    {
      lb.FallbackHolds(hosts);
    }

    // A request without criteria.
    method ChooseDefault() returns (choice: Choice)
      requires Valid() && (lb.fallbackSubset != null ==> lb.Snapshot())
      ensures !choice.Panic?
      ensures choice.Chosen? <==> exists h :: h in hosts && Allowed(lb.fallBackPolicy, lb.defaultSubset, h) && h.healthFlags == 0
      ensures choice.Chosen? ==> choice.host in hosts && choice.host.healthFlags == 0 && Allowed(lb.fallBackPolicy, lb.defaultSubset, choice.host)
    {
      hide DistinctAddresses;
      choice := lb.ChooseHost(None, hosts);
      lb.FallbackHolds(hosts);
    }

    /** The subset of a route: its metadata, brought into sorted criteria and walked down the trie.  When the keys of
        the metadata are a configured selector, in whatever order either was written, the walk meets that selector. */
    method SubsetForRoute(metadata: map<string, Value>) returns (entry: Entry?)
      requires Valid()
      ensures SelectorFor(lb.subSetKeys, metadata) && entry != null ==>
                && entry.prioritySubset != null && DistinctAddresses(entry.prioritySubset.hosts)
                && (forall h :: h in entry.prioritySubset.hosts <==> h in hosts && MeetsRoute(h, metadata))
      ensures SelectorFor(lb.subSetKeys, metadata) && entry == null ==> forall h :: h in hosts ==> !MeetsRoute(h, metadata)
    {
      var criteria := ExtractMatchCriteria(metadata);
      entry := lb.FindSubset(criteria, hosts);
      if SelectorFor(lb.subSetKeys, metadata) {
        CriteriaMeetSelector(lb.subSetKeys, metadata, criteria);
        forall h: Host ensures Carries(h, criteria) <==> MeetsRoute(h, metadata) { CarriesIsMeeting(h, metadata, criteria); }
      }
    }
  }

  // Some nonempty selector has exactly the text-valued keys of the metadata.
  ghost predicate SelectorFor(selectors: seq<seq<string>>, metadata: map<string, Value>) {
    exists s :: s in selectors && s != [] && forall k :: k in s <==> k in metadata && metadata[k].Text?
  }

  ghost predicate MeetsRoute(h: Host, metadata: map<string, Value>) {
    forall k :: k in metadata && metadata[k].Text? ==> k in h.metadata && h.metadata[k] == metadata[k].text
  }

  ghost predicate CriteriaOf(criteria: Pairs, metadata: map<string, Value>) {
    forall k, v :: (k, v) in criteria <==> k in metadata && metadata[k] == Text(v)
  }

  lemma CriteriaMeetSelector(selectors: seq<seq<string>>, metadata: map<string, Value>, criteria: Pairs)
    requires forall s :: s in selectors ==> StrictlySorted(s)
    requires SelectorFor(selectors, metadata)
    requires StrictlySorted(Keys(criteria)) && CriteriaOf(criteria, metadata)
    ensures criteria != [] && Keys(criteria) in selectors
  {
    var s :| s in selectors && s != [] && forall k :: k in s <==> k in metadata && metadata[k].Text?;
    forall k ensures k in Keys(criteria) <==> k in s {
      if k in s {
        var i :| 0 <= i < |criteria| && criteria[i] == (k, metadata[k].text);
        assert Keys(criteria)[i] == k;
      }
      if k in Keys(criteria) {
        var i :| 0 <= i < |criteria| && Keys(criteria)[i] == k;
        assert (k, criteria[i].1) in criteria;
      }
    }
    SortedUnique(Keys(criteria), s);
  }

  lemma CarriesIsMeeting(h: Host, metadata: map<string, Value>, criteria: Pairs)
    requires CriteriaOf(criteria, metadata)
    ensures Carries(h, criteria) <==> MeetsRoute(h, metadata)
  {
    if Carries(h, criteria) {
      forall k | k in metadata && metadata[k].Text? ensures k in h.metadata && h.metadata[k] == metadata[k].text {
        var i :| 0 <= i < |criteria| && criteria[i] == (k, metadata[k].text);
      }
    }
    if MeetsRoute(h, metadata) {
      forall i | 0 <= i < |criteria| ensures criteria[i].0 in h.metadata && h.metadata[criteria[i].0] == criteria[i].1 {
        assert (criteria[i].0, criteria[i].1) in criteria;
      }
    }
  }

  /** Any run of updates on a fresh cluster, over hosts from some universe.  The index is exact for the hosts that the
      updates leave one after the other, and the fallback subset for the policy given. */
  method Run(fallBackPolicy: FallBackPolicy, defaultSubset: Pairs, subsetSelectors: seq<seq<string>>, updates: seq<seq<Host>>,
             ghost universe: set<Host>)
    returns (c: SimpleInMemCluster)
    requires forall i, h :: 0 <= i < |updates| && h in updates[i] ==> h in universe
    modifies universe`weight
    ensures c.Valid() && c.hosts == HostsAfter(updates)
    ensures c.lb.fallBackPolicy == fallBackPolicy && c.lb.defaultSubset == defaultSubset
    ensures c.lb.fallbackSubset == null <==> fallBackPolicy == NoFallBack
    ensures fallBackPolicy == AnyEndPoint ==> forall h :: h in c.lb.fallbackSubset.hosts <==> h in c.hosts
    ensures fallBackPolicy == DefaultSubset ==> forall h :: h in c.lb.fallbackSubset.hosts <==>
              h in c.hosts && forall k, v :: (k, v) in defaultSubset ==> k in h.metadata && h.metadata[k] == v
    ensures c.lb.fallbackSubset != null ==> c.lb.Snapshot()
    ensures updates != [] ==> forall a :: HasAddress(c.hosts, a) <==> HasAddress(updates[|updates| - 1], a)
    ensures forall keys :: Listed(c.lb.subSetKeys, keys) <==> Listed(subsetSelectors, keys)
  {
    hide SimpleInMemCluster.Valid, HasAddress, Listed, NextHosts;
    c := new SimpleInMemCluster(fallBackPolicy, defaultSubset, subsetSelectors);
    for i := 0 to |updates|
      invariant c.Valid() && fresh(c) && fresh(c.hostSet) && fresh(c.lb) && fresh(c.lb.trie)
      invariant forall q :: q in c.lb.trie.index ==> fresh(c.lb.trie.index[q])
      invariant forall q :: q in c.lb.subsets ==> fresh(c.lb.subsets[q])
      invariant c.lb.fallbackSubset != null ==> fresh(c.lb.fallbackSubset) && c.lb.Snapshot()
      invariant forall h :: h in c.hosts ==> h in universe
      invariant c.hosts == HostsAfter(updates[..i])
      invariant i > 0 ==> forall a :: HasAddress(c.hosts, a) <==> HasAddress(updates[i - 1], a)
    {
      assert updates[..i + 1][..i] == updates[..i];
      c.UpdateHosts(updates[i]);
    }
    assert updates[..|updates|] == updates;
    c.FallbackHolds();
  }

  /** A request without criteria after any run of updates, under each policy: a host is chosen exactly when a host is left
      that the policy allows and that has no health flag, and the choice is such a host. */
  method RunAndChoose(fallBackPolicy: FallBackPolicy, defaultSubset: Pairs, subsetSelectors: seq<seq<string>>, updates: seq<seq<Host>>,
                      ghost universe: set<Host>)
    returns (choice: Choice)
    requires forall i, h :: 0 <= i < |updates| && h in updates[i] ==> h in universe
    modifies universe`weight
    ensures !choice.Panic?
    ensures choice.Chosen? <==> exists h :: h in HostsAfter(updates) && Allowed(fallBackPolicy, defaultSubset, h) && h.healthFlags == 0
    ensures choice.Chosen? ==>
              && choice.host in HostsAfter(updates) && choice.host.healthFlags == 0
              && Allowed(fallBackPolicy, defaultSubset, choice.host)
  {
    hide SimpleInMemCluster.Valid, HasAddress, Listed, HostsAfter;
    var c := Run(fallBackPolicy, defaultSubset, subsetSelectors, updates, universe);
    choice := c.ChooseDefault();
  }

  // What each policy lets a request without criteria have.
  ghost predicate Allowed(fallBackPolicy: FallBackPolicy, defaultSubset: Pairs, h: Host) {
    match fallBackPolicy
    case NoFallBack => false
    case AnyEndPoint => true
    case DefaultSubset => forall k, v :: (k, v) in defaultSubset ==> k in h.metadata && h.metadata[k] == v
  }
}
