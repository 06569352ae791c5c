/** The subset load balancer: an index of host subsets that membership callbacks keep up to date
    (subSetLoadBalancer in pkg/upstream/cluster/subsetlbimpl.go). */
module SubsetBalancer {
  import opened Options
  import opened Hosts
  import opened HostDiff
  import opened Subsets
  import opened SubsetTrie

  datatype FallBackPolicy = NoFallBack | AnyEndPoint | DefaultSubset

  // A host set of the cluster's priority set.
  class HostSet {
    var hosts: seq<Host>
    var healthyHosts: seq<Host>

    constructor ()
      ensures hosts == [] && healthyHosts == []
    {
      hosts, healthyHosts := [], [];
    }
  }

  function Keys(pairs: Pairs): (r: seq<string>)
    ensures |r| == |pairs| && forall i :: 0 <= i < |r| ==> r[i] == pairs[i].0
  {
    seq(|pairs|, i requires 0 <= i < |pairs| => pairs[i].0)
  }

  predicate CarriesKeys(h: Host, keys: seq<string>) {
    forall i :: 0 <= i < |keys| ==> keys[i] in h.metadata
  }

  // The pairs that a host contributes for a selector, empty when it misses a key.
  function Extracted(keys: seq<string>, h: Host): Pairs {
    if CarriesKeys(h, keys) then seq(|keys|, i requires 0 <= i < |keys| => (keys[i], h.metadata[keys[i]])) else []
  }

  // Exactly the hosts that carry all pairs of a path contribute that path.
  lemma ExtractedIff(keys: seq<string>, h: Host, path: Pairs)
    requires path != []
    ensures Extracted(keys, h) == path <==> Keys(path) == keys && Carries(h, path)
  {
    if Keys(path) == keys && Carries(h, path) {
      assert forall i :: 0 <= i < |keys| ==> keys[i] == path[i].0;
      assert CarriesKeys(h, keys);
      assert forall i :: 0 <= i < |path| ==> path[i] == (keys[i], h.metadata[keys[i]]);
      assert Extracted(keys, h) == path;
    }
    if Extracted(keys, h) == path {
      assert Keys(path) == keys;
    }
  }

  lemma PrefixCarried(h: Host, path: Pairs, prefix: Pairs)
    requires Carries(h, path) && prefix <= path
    ensures Carries(h, prefix)
  {
    forall i | 0 <= i < |prefix| ensures prefix[i].0 in h.metadata && h.metadata[prefix[i].0] == prefix[i].1 {
      assert prefix[i] == path[i];
    }
  }

  lemma CarriesPairs(h: Host, pairs: Pairs)
    ensures Carries(h, pairs) <==> forall k, v :: (k, v) in pairs ==> k in h.metadata && h.metadata[k] == v
  {
    if forall k, v :: (k, v) in pairs ==> k in h.metadata && h.metadata[k] == v {
      forall i | 0 <= i < |pairs| ensures pairs[i].0 in h.metadata && h.metadata[pairs[i].0] == pairs[i].1 {
        assert (pairs[i].0, pairs[i].1) in pairs;
      }
    }
  }

  method ExtractSubsetMetadata(keys: seq<string>, h: Host) returns (kvs: Pairs)
    ensures kvs == Extracted(keys, h)
  {
    kvs := [];
    for i := 0 to |keys|
      invariant CarriesKeys(h, keys[..i]) && kvs == Extracted(keys[..i], h)
    {
      assert keys[..i + 1][i] == keys[i];
      if keys[i] !in h.metadata {
        break;
      }
      kvs := kvs + [(keys[i], h.metadata[keys[i]])];
    }
    if |kvs| != |keys| {
      kvs := [];
    } else {
      assert keys[..|keys|] == keys;
    }
  }

  class SubsetLoadBalancer {
    const fallBackPolicy: FallBackPolicy
    const defaultSubset: Pairs
    const subSetKeys: seq<seq<string>>
    const original: HostSet
    const trie: Trie
    var fallbackSubset: PrioritySubset?
    ghost var subsets: map<Pairs, PrioritySubset>

    // The entries of the trie and the subsets hang together: a subset per initialized entry, none shared.
    ghost predicate Wired()
      reads this`subsets, trie`index, trie.index.Values`children, trie.index.Values`prioritySubset
    {
      && trie.Valid()
      && (forall p :: p in subsets ==> p in trie.index && p != [] && Keys(p) in subSetKeys && subsets[p].predicateFunc == Carrying(p))
      && (forall p :: p in trie.index ==> trie.index[p].prioritySubset == if p in subsets then subsets[p] else null)
      && (forall p, q :: p in subsets && q in subsets && subsets[p] == subsets[q] ==> p == q)
    }

    // The fallback subset is none of the subsets of the trie.
    ghost predicate Apart()
      reads this`subsets, this`fallbackSubset
    {
      fallbackSubset == null || forall p :: p in subsets ==> subsets[p] != fallbackSubset
    }

    // Every trie node whose key path is a configured selector is initialized.
    ghost predicate Ready()
      reads this`subsets, trie`index
    {
      forall p :: p in trie.index && p != [] && Keys(p) in subSetKeys ==> p in subsets
    }

    // Every host of the list is in the index under each selector it has the keys for.
    ghost predicate Covered(all: seq<Host>)
      reads this`subsets
    {
      forall h, s :: h in all && s in subSetKeys && Extracted(s, h) != [] ==> Extracted(s, h) in subsets
    }

    ghost predicate AllExact(all: seq<Host>)
      reads this`subsets, subsets.Values
    {
      forall p :: p in subsets ==> subsets[p].Exact(all)
    }

    ghost predicate FallbackExact(all: seq<Host>)
      reads this`fallbackSubset, fallbackSubset
    {
      fallbackSubset != null ==>
        && fallbackSubset.Exact(all)
        && fallBackPolicy != NoFallBack
        && fallbackSubset.predicateFunc == if fallBackPolicy == AnyEndPoint then AnyHost else Carrying(defaultSubset)
    }

    /** What the fallback subset holds under each policy: nothing, every host, or the hosts whose metadata has every pair of
        the default subset. */
    lemma FallbackHolds(all: seq<Host>)
      requires FallbackExact(all) && (fallbackSubset != null <==> fallBackPolicy != NoFallBack)
      ensures fallBackPolicy == NoFallBack ==> fallbackSubset == null
      ensures fallBackPolicy == AnyEndPoint ==> fallbackSubset != null && forall h :: h in fallbackSubset.hosts <==> h in all
      ensures fallBackPolicy == DefaultSubset ==> fallbackSubset != null && forall h :: h in fallbackSubset.hosts <==>
                h in all && forall k, v :: (k, v) in defaultSubset ==> k in h.metadata && h.metadata[k] == v
    {
      hide DistinctAddresses, Carries;
      if fallBackPolicy == DefaultSubset {
        forall h: Host ensures Carries(h, defaultSubset) <==> forall k, v :: (k, v) in defaultSubset ==> k in h.metadata && h.metadata[k] == v {
          CarriesPairs(h, defaultSubset);
        }
      }
    }

    ghost predicate Valid(all: seq<Host>)
      reads this, trie, trie.index.Values, subsets.Values, fallbackSubset
    {
      && Wired() && Apart() && Ready() && Covered(all) && AllExact(all) && FallbackExact(all)
    }

    // Mid-update: each subset is exact for the hosts before the change or for those after it.
    ghost predicate Halfway(before: seq<Host>, after: seq<Host>)
      reads this`subsets, subsets.Values
    {
      forall p :: p in subsets ==> subsets[p].Exact(before) || subsets[p].Exact(after)
    }

    // The subsets of one selector value that the host belongs to are there and exact.
    ghost predicate DoneWith(h: Host, s: seq<string>, after: seq<Host>)
      reads this`subsets, subsets.Values
    {
      Extracted(s, h) != [] ==> Extracted(s, h) in subsets && subsets[Extracted(s, h)].Exact(after)
    }

    // Entries and subsets are only ever added.
    twostate predicate Grew()
      reads this`subsets, trie`index
    {
      && (forall q :: q in old(subsets) ==> q in subsets && subsets[q] == old(subsets[q]))
      && (forall q :: q in subsets && q !in old(subsets) ==> fresh(subsets[q]))
      && (forall q :: q in old(trie.index) ==> q in trie.index && trie.index[q] == old(trie.index[q]))
      && (forall q :: q in trie.index && q !in old(trie.index) ==> fresh(trie.index[q]))
    }

    constructor (fallBackPolicy: FallBackPolicy, defaultSubset: Pairs, subSetKeys: seq<seq<string>>, original: HostSet)
      requires DistinctAddresses(original.hosts)
      ensures this.fallBackPolicy == fallBackPolicy && this.defaultSubset == defaultSubset
      ensures this.subSetKeys == subSetKeys && this.original == original
      ensures Valid(original.hosts) && (fallbackSubset != null <==> fallBackPolicy != NoFallBack)
      ensures fallbackSubset != null ==> Snapshot()
      ensures fresh(trie)
      ensures forall q :: q in trie.index ==> fresh(trie.index[q])
      ensures forall q :: q in subsets ==> fresh(subsets[q])
      ensures fallbackSubset != null ==> fresh(fallbackSubset)
    {
      this.fallBackPolicy, this.defaultSubset := fallBackPolicy, defaultSubset;
      this.subSetKeys, this.original := subSetKeys, original;
      trie := new Trie();
      fallbackSubset, subsets := null, map[];
      new;
      forall h | h in original.hosts ensures !HasAddress([], h.address) {}
      Update(original.hosts, [], []);
    }

    /** One visit of ProcessSubsets: find or create the entry, then update its subset or build it from all, the
        hosts of the original priority set.  An uninitialized entry is only built for an added host. */
    method Visit(kvs: Pairs, adding: bool, hostAdded: seq<Host>, hostsRemoved: seq<Host>, all: seq<Host>, ghost before: seq<Host>)
      requires Wired() && Halfway(before, all)
      requires Moves(before, hostAdded, hostsRemoved, all)
      requires kvs != [] && Keys(kvs) in subSetKeys && (adding || kvs in subsets)
      modifies this`subsets, trie`index, trie.index.Values, subsets.Values
      ensures Wired() && Halfway(before, all)
      ensures kvs in subsets && subsets[kvs].Exact(all)
      ensures forall q :: q in old(subsets) ==> q in subsets && subsets[q] == old(subsets[q])
      ensures forall q :: q in subsets && q !in old(subsets) ==> q == kvs && fresh(subsets[q])
      ensures forall q :: q in old(subsets) && old(subsets[q].Exact(all)) ==> subsets[q].Exact(all)
      ensures Grown(old(trie.index), trie.index, kvs)
      ensures forall q :: q in trie.index && q !in old(trie.index) ==> fresh(trie.index[q])
    {
      hide PrioritySubset.Exact, Moves, DistinctAddresses, Trie.Valid, Keys, SubsetLoadBalancer.Wired, SubsetLoadBalancer.Halfway;
      var entry := Locate(kvs);
      Refresh(kvs, entry, adding, hostAdded, hostsRemoved, all, before);
    }

    method Refresh(kvs: Pairs, entry: Entry, adding: bool, hostAdded: seq<Host>, hostsRemoved: seq<Host>, all: seq<Host>, ghost before: seq<Host>)
      requires Wired() && Halfway(before, all) && kvs in trie.index && trie.index[kvs] == entry
      requires Moves(before, hostAdded, hostsRemoved, all)
      requires kvs != [] && Keys(kvs) in subSetKeys && (adding || kvs in subsets)
      modifies this`subsets, entry`prioritySubset, subsets.Values
      ensures Wired() && Halfway(before, all)
      ensures kvs in subsets && subsets[kvs].Exact(all)
      ensures forall q :: q in old(subsets) ==> q in subsets && subsets[q] == old(subsets[q])
      ensures forall q :: q in subsets && q !in old(subsets) ==> q == kvs && fresh(subsets[q])
      ensures forall q :: q in old(subsets) && old(subsets[q].Exact(all)) ==> subsets[q].Exact(all)
    {
      assert DistinctAddresses(all);
      hide PrioritySubset.Exact, Moves, DistinctAddresses, Trie.Valid, Keys;
      if entry.prioritySubset != null {
        entry.prioritySubset.Follow(hostAdded, hostsRemoved, before, all);
      } else if adding {
        Initialize(kvs, entry, all);
      }
    }

    method Initialize(kvs: Pairs, entry: Entry, all: seq<Host>)
      requires Wired() && kvs in trie.index && trie.index[kvs] == entry && kvs !in subsets
      requires kvs != [] && Keys(kvs) in subSetKeys && DistinctAddresses(all)
      modifies this`subsets, entry`prioritySubset
      ensures Wired() && kvs in subsets && subsets == old(subsets)[kvs := subsets[kvs]]
      ensures fresh(subsets[kvs]) && subsets[kvs].Exact(all)
    {
      hide PrioritySubset.Exact, DistinctAddresses, Keys;
      var subset := new PrioritySubset(Carrying(kvs), all);
      assert forall p :: p in subsets ==> subsets[p] != subset;
      entry.prioritySubset := subset;
      subsets := subsets[kvs := subset];
      assert trie.Valid();
      hide Trie.Valid;
    }

    method Locate(kvs: Pairs) returns (entry: Entry)
      requires Wired() && kvs != []
      modifies trie`index, trie.index.Values`children
      ensures Wired() && kvs in trie.index && trie.index[kvs] == entry
      ensures Grown(old(trie.index), trie.index, kvs)
      ensures forall p :: p in trie.index && p !in old(trie.index) ==> fresh(trie.index[p])
    {
      entry := trie.FindOrCreateSubset(trie.root, kvs, 0);
    }

    // One selector for one host of a change.  Entries on the way to the host's path may come without a subset.
    method ProcessSelector(host: Host, keys: seq<string>, adding: bool, hostAdded: seq<Host>, hostsRemoved: seq<Host>, all: seq<Host>,
                           ghost before: seq<Host>, ghost done: set<(Host, seq<string>)>)
      requires Wired() && Covered(before) && Halfway(before, all) && keys in subSetKeys
      requires Moves(before, hostAdded, hostsRemoved, all)
      requires adding || host in before
      requires forall d :: d in done ==> DoneWith(d.0, d.1, all)
      modifies this`subsets, trie`index, trie.index.Values, subsets.Values
      ensures Wired() && Covered(before) && Halfway(before, all) && Grew()
      ensures forall d :: d in done ==> DoneWith(d.0, d.1, all)
      ensures DoneWith(host, keys, all)
      ensures forall p :: p in trie.index && p !in old(trie.index) ==> Carries(host, p)
    {
      hide PrioritySubset.Exact, Moves, Keys, Extracted, Carries, SubsetLoadBalancer.Wired, SubsetLoadBalancer.Halfway;
      var kvs := ExtractSubsetMetadata(keys, host);
      if |kvs| > 0 {
        ExtractedIff(keys, host, kvs);
        forall p: Pairs | p <= kvs ensures Carries(host, p) { PrefixCarried(host, kvs, p); }
        Visit(kvs, adding, hostAdded, hostsRemoved, all, before);
      }
    }

    // All selectors for one host of a change.
    method ProcessHost(host: Host, adding: bool, hostAdded: seq<Host>, hostsRemoved: seq<Host>, all: seq<Host>,
                       ghost before: seq<Host>, ghost done: seq<Host>)
      requires Wired() && Ready() && Covered(before) && Halfway(before, all)
      requires Moves(before, hostAdded, hostsRemoved, all)
      requires adding || host in before
      requires forall h, s :: h in done && s in subSetKeys ==> DoneWith(h, s, all)
      modifies this`subsets, trie`index, trie.index.Values, subsets.Values
      ensures Wired() && Ready() && Covered(before) && Halfway(before, all) && Grew()
      ensures forall h, s :: h in done + [host] && s in subSetKeys ==> DoneWith(h, s, all)
    {
      hide Moves, Keys, Extracted, Carries, SubsetLoadBalancer.Wired, SubsetLoadBalancer.Halfway, SubsetLoadBalancer.DoneWith, SubsetLoadBalancer.Covered;
      ghost var finished := set h, s | h in done && s in subSetKeys :: (h, s);
      for j := 0 to |subSetKeys|
        invariant Wired() && Covered(before) && Halfway(before, all) && Grew()
        invariant forall d :: d in finished ==> DoneWith(d.0, d.1, all)
        invariant forall h, s :: h in done && s in subSetKeys ==> (h, s) in finished
        invariant forall s :: s in subSetKeys[..j] ==> (host, s) in finished
        invariant forall p :: p in trie.index && p !in old(trie.index) ==> Carries(host, p)
      {
        assert subSetKeys[..j + 1] == subSetKeys[..j] + [subSetKeys[j]];
        ProcessSelector(host, subSetKeys[j], adding, hostAdded, hostsRemoved, all, before, finished);
        finished := finished + {(host, subSetKeys[j])};
      }
      assert subSetKeys[..|subSetKeys|] == subSetKeys;
      assert forall h, s :: h in done + [host] && s in subSetKeys ==> (h, s) in finished;
      AllReady(host, all, old(trie.index).Keys);
    }

    // Once the host is done, the entries on its paths have their subsets.
    lemma AllReady(host: Host, all: seq<Host>, older: set<Pairs>)
      requires forall p :: p in older && p != [] && Keys(p) in subSetKeys ==> p in subsets
      requires forall s :: s in subSetKeys ==> DoneWith(host, s, all)
      requires forall p :: p in trie.index && p !in older ==> Carries(host, p)
      ensures Ready()
    {
      hide PrioritySubset.Exact, Keys, Extracted, Carries;
      forall p | p in trie.index && p != [] && Keys(p) in subSetKeys ensures p in subsets {
        if p !in older {
          ExtractedIff(Keys(p), host, p);
          assert DoneWith(host, Keys(p), all);
        }
      }
    }

    method ProcessHosts(hosts: seq<Host>, adding: bool, hostAdded: seq<Host>, hostsRemoved: seq<Host>, all: seq<Host>,
                        ghost before: seq<Host>, ghost done: seq<Host>)
      requires Wired() && Ready() && Covered(before) && Halfway(before, all)
      requires Moves(before, hostAdded, hostsRemoved, all)
      requires adding || forall h :: h in hosts ==> h in before
      requires forall h, s :: h in done && s in subSetKeys ==> DoneWith(h, s, all)
      modifies this`subsets, trie`index, trie.index.Values, subsets.Values
      ensures Wired() && Ready() && Covered(before) && Halfway(before, all) && Grew()
      ensures forall h, s :: h in done + hosts && s in subSetKeys ==> DoneWith(h, s, all)
    {
      hide PrioritySubset.Exact, Moves, SubsetLoadBalancer.DoneWith, SubsetLoadBalancer.Wired, SubsetLoadBalancer.Ready, SubsetLoadBalancer.Covered, SubsetLoadBalancer.Halfway;
      for k := 0 to |hosts|
        invariant Wired() && Ready() && Covered(before) && Halfway(before, all) && Grew()
        invariant forall h, s :: h in done + hosts[..k] && s in subSetKeys ==> DoneWith(h, s, all)
      {
        ProcessHost(hosts[k], adding, hostAdded, hostsRemoved, all, before, done + hosts[..k]);
        assert done + hosts[..k + 1] == done + hosts[..k] + [hosts[k]];
      }
      assert hosts[..|hosts|] == hosts;
    }

    /** ProcessSubsets ranges over a two-element map from adding to hosts, so either list may come first. */
    method ProcessSubsets(hostAdded: seq<Host>, hostsRemoved: seq<Host>, all: seq<Host>, ghost before: seq<Host>)
      requires Wired() && Ready() && Covered(before) && AllExact(before)
      requires Moves(before, hostAdded, hostsRemoved, all)
      modifies this`subsets, trie`index, trie.index.Values, subsets.Values
      ensures Wired() && Ready() && Covered(all) && AllExact(all) && Grew()
    {
      assert Halfway(before, all) && forall h :: h in hostsRemoved ==> h in before;
      hide PrioritySubset.Exact, Moves, SubsetLoadBalancer.DoneWith, SubsetLoadBalancer.Wired, SubsetLoadBalancer.Ready,
        SubsetLoadBalancer.Covered, SubsetLoadBalancer.Halfway, SubsetLoadBalancer.AllExact;
      var addingFirst: bool := *;
      if addingFirst {
        ProcessBoth(hostAdded, true, hostsRemoved, hostAdded, hostsRemoved, all, before);
      } else {
        ProcessBoth(hostsRemoved, false, hostAdded, hostAdded, hostsRemoved, all, before);
      }
      AllDone(hostAdded, hostsRemoved, all, before);
    }

    method ProcessBoth(first: seq<Host>, adding: bool, second: seq<Host>, hostAdded: seq<Host>, hostsRemoved: seq<Host>,
                       all: seq<Host>, ghost before: seq<Host>)
      requires Wired() && Ready() && Covered(before) && Halfway(before, all)
      requires Moves(before, hostAdded, hostsRemoved, all)
      requires forall h :: h in (if adding then second else first) ==> h in before
      modifies this`subsets, trie`index, trie.index.Values, subsets.Values
      ensures Wired() && Ready() && Covered(before) && Halfway(before, all) && Grew()
      ensures forall h, s :: h in first && s in subSetKeys ==> DoneWith(h, s, all)
      ensures forall h, s :: h in second && s in subSetKeys ==> DoneWith(h, s, all)
    {
      hide PrioritySubset.Exact, Moves, SubsetLoadBalancer.DoneWith, SubsetLoadBalancer.Wired, SubsetLoadBalancer.Ready,
        SubsetLoadBalancer.Covered, SubsetLoadBalancer.Halfway;
      ProcessHosts(first, adding, hostAdded, hostsRemoved, all, before, []);
      assert [] + first == first;
      ProcessHosts(second, !adding, hostAdded, hostsRemoved, all, before, first);
    }

    // With every host of the change done, the whole index is exact for the new host list.
    lemma AllDone(hostAdded: seq<Host>, hostsRemoved: seq<Host>, all: seq<Host>, before: seq<Host>)
      requires Wired() && Covered(before) && Halfway(before, all)
      requires Moves(before, hostAdded, hostsRemoved, all)
      requires forall h, s :: h in hostAdded && s in subSetKeys ==> DoneWith(h, s, all)
      requires forall h, s :: h in hostsRemoved && s in subSetKeys ==> DoneWith(h, s, all)
      ensures Covered(all) && AllExact(all)
    {
      forall p | p in subsets ensures subsets[p].Exact(all) {
        if h :| (h in hostAdded || h in hostsRemoved) && Carries(h, p) {
          ExtractedIff(Keys(p), h, p);
          assert DoneWith(h, Keys(p), all);
        } else if !subsets[p].Exact(all) {
          UntouchedStaysExact(subsets[p].hosts, Carrying(p), before, hostAdded, hostsRemoved, all);
        }
      }
      forall h, s | h in all && s in subSetKeys && Extracted(s, h) != [] ensures Extracted(s, h) in subsets {
        if h !in before { assert DoneWith(h, s, all); }
      }
    }

    /** UpdateFallbackSubset: the fallback subset is built on the first update unless the policy is NoFallBack. */
    method UpdateFallbackSubset(hostAdded: seq<Host>, hostsRemoved: seq<Host>, all: seq<Host>, ghost before: seq<Host>)
      requires Moves(before, hostAdded, hostsRemoved, all)
      requires FallbackExact(before) && Apart()
      modifies this`fallbackSubset, fallbackSubset
      ensures FallbackExact(all) && (fallbackSubset != null <==> fallBackPolicy != NoFallBack)
      ensures fallBackPolicy == AnyEndPoint ==> forall h :: h in fallbackSubset.hosts <==> h in all
      ensures fallBackPolicy == DefaultSubset ==> forall h :: h in fallbackSubset.hosts <==>
                h in all && forall k, v :: (k, v) in defaultSubset ==> k in h.metadata && h.metadata[k] == v
      ensures fallbackSubset != null ==> Snapshot()
      ensures Apart()
      ensures fallbackSubset != old(fallbackSubset) ==> fresh(fallbackSubset)
    {
      assert DistinctAddresses(all);
      hide PrioritySubset.Exact, Moves, DistinctAddresses;
      if fallBackPolicy == NoFallBack {
        return;
      }
      if fallbackSubset == null {
        var predicateFunc := if fallBackPolicy == AnyEndPoint then AnyHost else Carrying(defaultSubset);
        fallbackSubset := new PrioritySubset(predicateFunc, all);
      }
      fallbackSubset.Follow(hostAdded, hostsRemoved, before, all);
      HealthyMembers(fallbackSubset.hosts);
      FallbackHolds(all);
    }

    // The healthy hosts of the fallback subset are the ones without a health flag now.
    ghost predicate Snapshot()
      requires fallbackSubset != null
      reads this`fallbackSubset, fallbackSubset, (set h | h in fallbackSubset.hosts)`healthFlags
    {
      && (forall h :: h in fallbackSubset.healthyHosts ==> h in fallbackSubset.hosts)
      && (forall h :: h in fallbackSubset.hosts ==> (h in fallbackSubset.healthyHosts <==> h.healthFlags == 0))
    }

    /** Update, the member-update callback.  The original priority set already holds the hosts after the change. */
    method Update(hostAdded: seq<Host>, hostsRemoved: seq<Host>, ghost before: seq<Host>)
      requires Valid(before) && Moves(before, hostAdded, hostsRemoved, original.hosts)
      modifies this, trie, trie.index.Values, subsets.Values, fallbackSubset
      ensures Valid(original.hosts) && (fallbackSubset != null <==> fallBackPolicy != NoFallBack)
      ensures Grew() && (fallbackSubset != old(fallbackSubset) ==> fresh(fallbackSubset))
      ensures fallbackSubset != null ==> Snapshot()
    {
      hide Moves, PrioritySubset.Exact, SubsetLoadBalancer.Wired, SubsetLoadBalancer.Ready, SubsetLoadBalancer.Covered,
        SubsetLoadBalancer.AllExact;
      UpdateFallbackSubset(hostAdded, hostsRemoved, original.hosts, before);
      ProcessSubsets(hostAdded, hostsRemoved, original.hosts, before);
    }

    /** FindSubset against the naive definition.  For criteria whose keys are a configured selector, the entry found
        holds exactly the hosts that carry all the criteria, and when nothing is found there is no such host.  An
        entry found for other keys is an inner node of the trie and has no subset at all. */
    method FindSubset(criteria: Pairs, ghost all: seq<Host>) returns (entry: Entry?)
      requires Valid(all)
      ensures entry != null <==> criteria != [] && criteria in trie.index
      ensures entry != null ==> entry == trie.index[criteria]
      ensures entry != null ==> (entry.prioritySubset != null <==> Keys(criteria) in subSetKeys)
      ensures entry != null && entry.prioritySubset != null ==>
                ExactSubset(entry.prioritySubset.hosts, Carrying(criteria), all) && entry.prioritySubset.Exact(all)
      ensures entry == null && criteria != [] && Keys(criteria) in subSetKeys ==> forall h :: h in all ==> !Carries(h, criteria)
    {
      entry := trie.FindSubset(criteria);
      if entry == null && criteria != [] && Keys(criteria) in subSetKeys {
        forall h | h in all ensures !Carries(h, criteria) {
          ExtractedIff(Keys(criteria), h, criteria);
        }
      }
    }

    // The criteria lead to an entry of the trie.
    ghost predicate Leads(criteria: Option<Pairs>)
      reads trie`index
    {
      criteria.Some? && criteria.value != [] && criteria.value in trie.index
    }

    /** ChooseHost.  The picker inside a subset is round robin or random; either returns some healthy host, or nil
        when the subset has none, and the choice is left open here.  The two dereferences of nil that the code
        can reach end in Panic: an entry without a subset, and a subset without a healthy host. */
    method ChooseHost(criteria: Option<Pairs>, ghost all: seq<Host>) returns (choice: Choice)
      requires Valid(all)
      ensures choice.Panic? <==> Leads(criteria) && (Keys(criteria.value) in subSetKeys ==> subsets[criteria.value].healthyHosts == [])
      ensures Leads(criteria) ==> !choice.NoHost?
      ensures Leads(criteria) && choice.Chosen? ==>
                criteria.value in subsets && choice.host in subsets[criteria.value].healthyHosts && Carries(choice.host, criteria.value)
      ensures !Leads(criteria) ==> (choice.NoHost? <==> fallbackSubset == null || fallbackSubset.healthyHosts == [])
      ensures !Leads(criteria) && choice.Chosen? ==>
                && choice.host in fallbackSubset.healthyHosts
                && (fallBackPolicy == DefaultSubset ==>
                      forall k, v :: (k, v) in defaultSubset ==> k in choice.host.metadata && choice.host.metadata[k] == v)
      ensures !Leads(criteria) && criteria.Some? && criteria.value != [] && Keys(criteria.value) in subSetKeys ==>
                forall h :: h in all ==> !Carries(h, criteria.value)
      ensures choice.Chosen? ==> choice.host in all
      ensures fallBackPolicy == NoFallBack ==> (choice.NoHost? <==> !Leads(criteria))
    {
      if criteria.Some? {
        var entry := FindSubset(criteria.value, all);
        if entry != null {
          if entry.prioritySubset == null {
            return Panic;
          }
          assert entry.prioritySubset == subsets[criteria.value];
          var host := PickHealthy(entry.prioritySubset);
          return if host == null then Panic else Chosen(host);
        }
      }
      if fallbackSubset != null { fallbackSubset.EmptyIsUnhealthy(all); }
      if fallbackSubset == null || |fallbackSubset.hosts| == 0 {
        return NoHost;
      }
      FallbackHolds(all);
      var host := PickHealthy(fallbackSubset);
      return if host == null then NoHost else Chosen(host);
    }
  }

  datatype Choice = Chosen(host: Host) | NoHost | Panic

  method PickHealthy(subset: PrioritySubset) returns (host: Host?)
    ensures host == null <==> subset.healthyHosts == []
    ensures host != null ==> host in subset.healthyHosts
  {
    if |subset.healthyHosts| == 0 {
      return null;
    }
    var i :| 0 <= i < |subset.healthyHosts|;
    return subset.healthyHosts[i];
  }
}
