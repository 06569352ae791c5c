/** The host-list diff that every membership change goes through
    (pkg/upstream/cluster/concreteclusters.go). */
module HostDiff {
  import opened Hosts

  // The members of hosts with the given address, in order.
  function WithAddress(hosts: seq<Host>, a: string): (r: seq<Host>) {
    if hosts == [] then []
    else
      var last := |hosts| - 1;
      var front := WithAddress(hosts[..last], a);
      if hosts[last].address == a then front + [hosts[last]] else front
  }

  // The members of xs whose address does not occur in ys, in order.
  function Without(xs: seq<Host>, ys: seq<Host>): (r: seq<Host>) {
    if xs == [] then []
    else
      var last := |xs| - 1;
      var front := Without(xs[..last], ys);
      if HasAddress(ys, xs[last].address) then front else front + [xs[last]]
  }

  // The new list with later duplicates of an address dropped.
  function Deduplicated(hosts: seq<Host>): (r: seq<Host>) {
    if hosts == [] then []
    else
      var last := |hosts| - 1;
      var front := Deduplicated(hosts[..last]);
      if HasAddress(hosts[..last], hosts[last].address) then front else front + [hosts[last]]
  }

  // Each host replaced by the current host objects with its address, when there are any.
  function Kept(hosts: seq<Host>, current: seq<Host>): (r: seq<Host>) {
    if hosts == [] then []
    else
      var last := |hosts| - 1;
      Kept(hosts[..last], current)
      + if HasAddress(current, hosts[last].address) then WithAddress(current, hosts[last].address) else [hosts[last]]
  }

  function FinalHosts(hosts: seq<Host>, current: seq<Host>): seq<Host> { Kept(Deduplicated(hosts), current) }
  function Added(hosts: seq<Host>, current: seq<Host>): seq<Host> { Without(Deduplicated(hosts), current) }
  function Removed(hosts: seq<Host>, current: seq<Host>): seq<Host> { Without(current, hosts) }

  lemma {:induction false} WithAddressMembers(hosts: seq<Host>, a: string)
    ensures forall h :: h in WithAddress(hosts, a) ==> h in hosts && h.address == a
    ensures forall h :: h in hosts && h.address == a ==> h in WithAddress(hosts, a)
    ensures WithAddress(hosts, a) == [] <==> !HasAddress(hosts, a)
  {
    if hosts != [] {
      var last := |hosts| - 1;
      assert hosts == hosts[..last] + [hosts[last]];
      WithAddressMembers(hosts[..last], a);
      HasAddressSnoc(hosts[..last], hosts[last]);
    }
  }

  lemma {:induction false} WithoutMembers(xs: seq<Host>, ys: seq<Host>)
    ensures forall h :: h in Without(xs, ys) ==> h in xs && !HasAddress(ys, h.address)
    ensures forall h :: h in xs && !HasAddress(ys, h.address) ==> h in Without(xs, ys)
  {
    if xs != [] {
      var last := |xs| - 1;
      assert xs == xs[..last] + [xs[last]];
      WithoutMembers(xs[..last], ys);
    }
  }

  // Removing keeps the order.
  lemma {:induction false} WithoutAppend(a: seq<Host>, b: seq<Host>, ys: seq<Host>)
    ensures Without(a + b, ys) == Without(a, ys) + Without(b, ys)
    decreases |b|
  {
    if b == [] {
      assert a + b == a;
    } else {
      var last := |b| - 1;
      assert (a + b)[..|a + b| - 1] == a + b[..last];
      WithoutAppend(a, b[..last], ys);
    }
  }

  lemma {:induction false} HostAtPrefix(front: seq<Host>, h: Host, a: string)
    requires HasAddress(front, a)
    ensures HasAddress(front + [h], a) && HostAt(front + [h], a) == HostAt(front, a)
  {
    var i :| 0 <= i < |front| && front[i].address == a;
    assert (front + [h])[i].address == a;
    if front[0].address != a {
      assert front[1..][i - 1].address == a;
      HostAtPrefix(front[1..], h, a);
      assert (front + [h])[1..] == front[1..] + [h];
    }
  }

  lemma {:induction false} HostAtNewLast(front: seq<Host>, h: Host)
    requires !HasAddress(front, h.address)
    ensures HasAddress(front + [h], h.address) && HostAt(front + [h], h.address) == h
  {
    assert (front + [h])[|front|] == h;
    if front != [] {
      assert front[0].address != h.address;
      forall i | 0 <= i < |front[1..]| ensures front[1..][i].address != h.address { assert front[1..][i] == front[i + 1]; }
      HostAtNewLast(front[1..], h);
      assert (front + [h])[1..] == front[1..] + [h];
    }
  }

  lemma {:induction false} DeduplicatedFacts(hosts: seq<Host>)
    ensures DistinctAddresses(Deduplicated(hosts))
    ensures forall a :: HasAddress(Deduplicated(hosts), a) <==> HasAddress(hosts, a)
    ensures forall h :: h in Deduplicated(hosts) ==> HasAddress(hosts, h.address) && h == HostAt(hosts, h.address)
  {
    if hosts != [] {
      var last := |hosts| - 1;
      var front := hosts[..last];
      DeduplicatedFacts(front);
      assert hosts == front + [hosts[last]];
      HasAddressSnoc(front, hosts[last]);
      HasAddressSnoc(Deduplicated(front), hosts[last]);
      forall a | HasAddress(front, a) ensures HostAt(hosts, a) == HostAt(front, a) { HostAtPrefix(front, hosts[last], a); }
      if !HasAddress(front, hosts[last].address) { HostAtNewLast(front, hosts[last]); }
    }
  }

  lemma {:induction false} WithAddressUnique(hosts: seq<Host>, a: string)
    requires DistinctAddresses(hosts) && HasAddress(hosts, a)
    ensures WithAddress(hosts, a) == [HostAt(hosts, a)]
  {
    var last := |hosts| - 1;
    var front := hosts[..last];
    assert hosts == front + [hosts[last]];
    HasAddressSnoc(front, hosts[last]);
    WithAddressMembers(front, a);
    if HasAddress(front, a) {
      WithAddressUnique(front, a);
      HostAtPrefix(front, hosts[last], a);
      assert hosts[last].address != a;
    } else {
      HostAtNewLast(front, hosts[last]);
    }
  }

  // Against a list with distinct addresses, Kept replaces hosts one for one.
  lemma {:induction false} KeptOneForOne(hosts: seq<Host>, current: seq<Host>)
    requires DistinctAddresses(current)
    ensures |Kept(hosts, current)| == |hosts|
    ensures forall i :: 0 <= i < |hosts| ==>
                          Kept(hosts, current)[i].address == hosts[i].address
                          && Kept(hosts, current)[i] == if HasAddress(current, hosts[i].address) then HostAt(current, hosts[i].address) else hosts[i]
  {
    hide WithAddress, HostAt;
    if hosts != [] {
      var last := |hosts| - 1;
      KeptOneForOne(hosts[..last], current);
      if HasAddress(current, hosts[last].address) { WithAddressUnique(current, hosts[last].address); }
    }
  }

  /** What a membership change from before to after by these two lists means: nothing is lost or invented,
      and no address is both kept and removed or both added and already there. */
  ghost predicate Moves(before: seq<Host>, added: seq<Host>, removed: seq<Host>, after: seq<Host>) {
    && DistinctAddresses(before) && DistinctAddresses(after)
    && (forall h :: h in added ==> h in after && !HasAddress(before, h.address))
    && (forall h :: h in removed ==> h in before && !HasAddress(after, h.address))
    && (forall h :: h in before ==> h in removed || h in after)
    && (forall h :: h in after ==> h in before || h in added)
  }

  // The diff of two lists is a membership change, and the new address set is the one asked for.
  lemma DiffMoves(hosts: seq<Host>, current: seq<Host>)
    requires DistinctAddresses(current)
    ensures Moves(current, Added(hosts, current), Removed(hosts, current), FinalHosts(hosts, current))
    ensures forall a :: HasAddress(FinalHosts(hosts, current), a) <==> HasAddress(hosts, a)
    ensures forall h :: h in FinalHosts(hosts, current) ==> h in hosts || h in current
  {
    hide Deduplicated, Kept, Without, HostAt;
    var dedup := Deduplicated(hosts);
    var after := FinalHosts(hosts, current);
    DeduplicatedFacts(hosts);
    KeptOneForOne(dedup, current);
    WithoutMembers(dedup, current);
    WithoutMembers(current, hosts);
    forall a ensures HasAddress(after, a) <==> HasAddress(dedup, a) {
      if HasAddress(after, a) { var i :| 0 <= i < |after| && after[i].address == a; assert dedup[i].address == a; }
      if HasAddress(dedup, a) { var i :| 0 <= i < |dedup| && dedup[i].address == a; assert after[i].address == a; }
    }
    forall h | h in current && !(h in Removed(hosts, current)) ensures h in after {
      var i :| 0 <= i < |dedup| && dedup[i].address == h.address;
      SameAddressSameHost(current, after[i], h);
      assert after[i] == h;
    }
    forall h | h in after ensures h in current || h in Added(hosts, current) {
      var i :| 0 <= i < |after| && after[i] == h;
    }
    forall h | h in Added(hosts, current) ensures h in after {
      var i :| 0 <= i < |dedup| && dedup[i] == h;
      assert after[i] == h;
    }
  }

  /** A kept host object keeps its old metadata.  The final list carries the metadata asked for exactly when every
      current host that stays was asked for with the metadata it already had. */
  lemma MetadataFollows(hosts: seq<Host>, current: seq<Host>)
    requires DistinctAddresses(current)
    ensures (forall h :: h in FinalHosts(hosts, current) ==> HasAddress(hosts, h.address) && h.metadata == HostAt(hosts, h.address).metadata)
            <==> (forall h :: h in current && HasAddress(hosts, h.address) ==> h.metadata == HostAt(hosts, h.address).metadata)
  {
    hide Deduplicated, Kept, Without;
    DeduplicatedFacts(hosts);
    DiffMoves(hosts, current);
    WithoutMembers(Deduplicated(hosts), current);
    WithoutMembers(current, hosts);
    var after := FinalHosts(hosts, current);
    forall h | h in after ensures HasAddress(hosts, h.address) { MemberHasAddress(after, h); }
    forall h | h in current && HasAddress(hosts, h.address) ensures h in after {}
    forall h | h in after && h !in current ensures h == HostAt(hosts, h.address) {}
  }

  // Added and removed never share an address, and both are empty exactly when the address sets are equal.
  lemma DiffChanges(hosts: seq<Host>, current: seq<Host>)
    requires DistinctAddresses(current)
    ensures forall g, h :: g in Added(hosts, current) && h in Removed(hosts, current) ==> g.address != h.address
    ensures Added(hosts, current) == [] && Removed(hosts, current) == []
            <==> forall a :: HasAddress(hosts, a) <==> HasAddress(current, a)
  {
    var dedup := Deduplicated(hosts);
    DeduplicatedFacts(hosts);
    WithoutMembers(dedup, current);
    WithoutMembers(current, hosts);
    if Added(hosts, current) == [] && Removed(hosts, current) == [] {
      forall a ensures HasAddress(hosts, a) <==> HasAddress(current, a) {
        if HasAddress(hosts, a) { assert HostAt(dedup, a) !in Added(hosts, current); }
        if HasAddress(current, a) { assert HostAt(current, a) !in Removed(hosts, current); }
      }
    } else if Added(hosts, current) != [] {
      var h := Added(hosts, current)[0];
      assert h in dedup && !HasAddress(current, h.address);
    } else {
      var h := Removed(hosts, current)[0];
      assert h in current && !HasAddress(hosts, h.address);
    }
  }

  lemma {:induction false} WithoutNone(xs: seq<Host>)
    ensures Without(xs, []) == xs
  {
    if xs != [] {
      WithoutNone(xs[..|xs| - 1]);
    }
  }

  lemma {:induction false} WithoutSameAddresses(xs: seq<Host>, ys: seq<Host>, zs: seq<Host>)
    requires forall a :: HasAddress(ys, a) <==> HasAddress(zs, a)
    ensures Without(xs, ys) == Without(xs, zs)
  {
    if xs != [] { WithoutSameAddresses(xs[..|xs| - 1], ys, zs); }
  }

  lemma {:induction false} WithoutSnoc(xs: seq<Host>, ys: seq<Host>, y: Host)
    ensures Without(xs, ys + [y]) == Without(Without(xs, ys), [y])
  {
    if xs != [] {
      var last := |xs| - 1;
      WithoutSnoc(xs[..last], ys, y);
      HasAddressSnoc(ys, y);
      HasAddressSnoc([], y);
      assert [] + [y] == [y];
      if !HasAddress(ys, xs[last].address) {
        assert Without(xs, ys)[..|Without(xs, ys)| - 1] == Without(xs[..last], ys);
      }
    }
  }

  lemma {:induction false} WithAddressWithout(xs: seq<Host>, ys: seq<Host>, a: string)
    requires !HasAddress(ys, a)
    ensures WithAddress(Without(xs, ys), a) == WithAddress(xs, a)
  {
    if xs != [] {
      var last := |xs| - 1;
      WithAddressWithout(xs[..last], ys, a);
      if !HasAddress(ys, xs[last].address) {
        assert Without(xs, ys)[..|Without(xs, ys)| - 1] == Without(xs[..last], ys);
      }
    }
  }

  // The spec functions over no new hosts.
  lemma DiffNone(current: seq<Host>)
    ensures FinalHosts([], current) == [] && Added([], current) == [] && Removed([], current) == current
  {
    WithoutNone(current);
  }

  // The spec functions over one more new host.
  lemma DiffSnoc(hosts: seq<Host>, nh: Host, current: seq<Host>)
    ensures HasAddress(hosts, nh.address) ==>
              FinalHosts(hosts + [nh], current) == FinalHosts(hosts, current) && Added(hosts + [nh], current) == Added(hosts, current)
              && Removed(hosts + [nh], current) == Removed(hosts, current)
    ensures !HasAddress(hosts, nh.address) ==>
              && FinalHosts(hosts + [nh], current) == FinalHosts(hosts, current) + (if HasAddress(current, nh.address) then WithAddress(current, nh.address) else [nh])
              && Added(hosts + [nh], current) == Added(hosts, current) + (if HasAddress(current, nh.address) then [] else [nh])
              && Removed(hosts + [nh], current) == Without(Removed(hosts, current), [nh])
              && WithAddress(Removed(hosts, current), nh.address) == WithAddress(current, nh.address)
    ensures forall h :: h in Removed(hosts, current) ==> h in current && !HasAddress(hosts, h.address)
    ensures forall h :: h in current && !HasAddress(hosts, h.address) ==> h in Removed(hosts, current)
  {
    WithoutMembers(current, hosts);
    var all := hosts + [nh];
    assert all[..|all| - 1] == hosts;
    HasAddressSnoc(hosts, nh);
    if HasAddress(hosts, nh.address) {
      WithoutSameAddresses(current, hosts, all);
    } else {
      var dedup := Deduplicated(hosts);
      assert (dedup + [nh])[..|dedup|] == dedup;
      WithoutSnoc(current, hosts, nh);
      WithAddressWithout(current, hosts, nh.address);
    }
  }

  lemma {:induction false} HostAtFirst(hosts: seq<Host>, k: nat)
    requires k < |hosts| && !HasAddress(hosts[..k], hosts[k].address)
    ensures HasAddress(hosts, hosts[k].address) && HostAt(hosts, hosts[k].address) == hosts[k]
  {
    if k > 0 {
      assert hosts[..k][0].address != hosts[k].address;
      var front := hosts[1..][..k - 1];
      assert forall i :: 0 <= i < k - 1 ==> front[i] == hosts[..k][i + 1];
      HostAtFirst(hosts[1..], k - 1);
    }
  }

  /** The outer loop of updateDynamicHostList.  The caller hands over its own copy of the current list, so the
      shrinking slice is a local; the hosts in it are re-weighted in place. */
  method UpdateDynamicHostList(newHosts: seq<Host>, currentHosts: seq<Host>)
    returns (changed: bool, finalHosts: seq<Host>, hostsAdded: seq<Host>, hostsRemoved: seq<Host>)
    modifies (set h | h in currentHosts)`weight
    ensures finalHosts == FinalHosts(newHosts, currentHosts)
    ensures hostsAdded == Added(newHosts, currentHosts)
    ensures hostsRemoved == Removed(newHosts, currentHosts)
    ensures changed <==> hostsAdded != [] || hostsRemoved != []
    ensures forall h :: h in currentHosts ==>
                          h.weight == if HasAddress(newHosts, h.address) then old(HostAt(newHosts, h.address).weight) else old(h.weight)
  {
    hide FinalHosts, Added, Removed, Without, HostAt;
    ghost var given: map<string, nat> := map[];
    var current := currentHosts;
    finalHosts, hostsAdded := [], [];
    var hostAddrs: set<string> := {};
    DiffNone(currentHosts);
    assert newHosts[..0] == [];

    for k := 0 to |newHosts|
      invariant current == Removed(newHosts[..k], currentHosts)
      invariant forall a :: a in hostAddrs <==> HasAddress(newHosts[..k], a)
      invariant finalHosts == FinalHosts(newHosts[..k], currentHosts)
      invariant hostsAdded == Added(newHosts[..k], currentHosts)
      invariant given.Keys == hostAddrs
      invariant forall a :: a in given ==> HasAddress(newHosts, a) && given[a] == old(HostAt(newHosts, a).weight)
      invariant forall h :: h in currentHosts ==> h.weight == if h.address in given then given[h.address] else old(h.weight)
    {
      var nh := newHosts[k];
      assert newHosts[..k + 1] == newHosts[..k] + [nh];
      DiffSnoc(newHosts[..k], nh, currentHosts);
      HasAddressSnoc(newHosts[..k], nh);
      if nh.address !in hostAddrs {
        HostAtFirst(newHosts, k);
        WithAddressMembers(currentHosts, nh.address);
        hostAddrs := hostAddrs + {nh.address};
        var taken;
        current, taken := TakeMatching(current, nh);
        given := given[nh.address := old(nh.weight)];
        finalHosts := finalHosts + taken;
        if taken == [] {
          finalHosts := finalHosts + [nh];
          hostsAdded := hostsAdded + [nh];
        }
      }
    }
    assert newHosts[..|newHosts|] == newHosts;
    hostsRemoved := current;
    changed := |hostsAdded| > 0 || |hostsRemoved| > 0;
  }

  // The inner loop: it shrinks the slice it walks, moving every match to the final list and giving it nh's weight.
  method TakeMatching(currentHosts: seq<Host>, nh: Host) returns (rest: seq<Host>, taken: seq<Host>)
    modifies (set h | h in currentHosts)`weight
    ensures rest == Without(currentHosts, [nh])
    ensures taken == WithAddress(currentHosts, nh.address)
    ensures forall h :: h in currentHosts ==> h.weight == if h.address == nh.address then old(nh.weight) else old(h.weight)
  {
    hide Without, WithAddress;
    ghost var w := nh.weight;
    ghost var j := 0;
    var i := 0;
    rest, taken := currentHosts, [];
    MatchNone(currentHosts, nh);
    while i < |rest|
      invariant j <= |currentHosts| && i == |Without(currentHosts[..j], [nh])|
      invariant rest == Without(currentHosts[..j], [nh]) + currentHosts[j..]
      invariant taken == WithAddress(currentHosts[..j], nh.address)
      invariant nh.weight == w
      invariant forall h :: h in currentHosts && h.address != nh.address ==> h.weight == old(h.weight)
      invariant forall m :: 0 <= m < j && currentHosts[m].address == nh.address ==> currentHosts[m].weight == w
    {
      var cur := rest[i];
      assert cur == currentHosts[j];
      MatchStep(currentHosts, j, nh);
      if nh.address == cur.address {
        cur.weight := nh.weight;
        taken := taken + [cur];
        rest := Cut(rest, i);
      } else {
        i := i + 1;
      }
      j := j + 1;
    }
    MatchDone(currentHosts, nh);
  }

  lemma MatchNone(before: seq<Host>, nh: Host)
    ensures Without(before[..0], [nh]) == [] && WithAddress(before[..0], nh.address) == []
  {
  }

  lemma MatchDone(before: seq<Host>, nh: Host)
    ensures before[..|before|] == before
    ensures Without(before[..|before|], [nh]) + before[|before|..] == Without(before, [nh])
  {
    assert before[..|before|] == before && before[|before|..] == [];
  }

  lemma MatchStep(before: seq<Host>, j: nat, nh: Host)
    requires j < |before|
    ensures before[..j + 1] == before[..j] + [before[j]]
    ensures var w, w' := Without(before[..j], [nh]), Without(before[..j + 1], [nh]);
            if before[j].address == nh.address then
              w' == w && Cut(w + before[j..], |w|) == w + before[j + 1..]
            else
              w' == w + [before[j]] && w + before[j..] == w' + before[j + 1..]
    ensures WithAddress(before[..j + 1], nh.address) == WithAddress(before[..j], nh.address) + (if before[j].address == nh.address then [before[j]] else [])
  {
    HasAddressSnoc([], nh);
    assert [] + [nh] == [nh];
    assert before[..j + 1][..j] == before[..j];
  }
}
