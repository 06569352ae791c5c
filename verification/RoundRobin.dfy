/** Round robin over the healthy hosts of all priorities (roundRobinLoadBalancer in pkg/upstream/cluster/loadbalancer.go). */
module RoundRobin {
  import opened Options

  // Lengths are cut to 32 bits by the code.
  const WIDTH: nat := 0x1_0000_0000

  // rrIndexPriority and rrIndex.
  datatype Cursor = Cursor(priority: nat, index: nat)

  /** The priority in use is one of the host sets, which are never taken away; the index may have been overtaken by a
      host set that has shrunk since. */
  ghost predicate Usable<T>(sets: seq<seq<T>>, c: Cursor) {
    c.priority < |sets| < WIDTH && c.index < WIDTH && forall s :: s in sets ==> |s| < WIDTH
  }

  // The next of n places in a ring.
  function Following(p: nat, n: nat): (q: nat)
    requires p < n
    ensures q < n
  {
    if p + 1 == n then 0 else p + 1
  }

  lemma FollowingMod(p: nat, n: nat)
    requires p < n
    ensures (p + 1) % n == Following(p, n) && p % n == p
  {
  }

  // One call: the host, or nothing for an empty priority, and the cursor left behind.
  function Choose<T>(sets: seq<seq<T>>, c: Cursor): (r: (Option<T>, Cursor))
    requires Usable(sets, c)
    ensures Usable(sets, r.1)
  {
    var c' := if c.index >= |sets[c.priority]| then Cursor(Following(c.priority, |sets|), 0) else c;
    var hosts := sets[c'.priority];
    assert hosts in sets;
    if hosts == [] then (None, c') else (Some(hosts[c'.index]), c'.(index := c'.index + 1))
  }

  class RoundRobinLoadBalancer<T> {
    var rrIndexPriority: nat
    var rrIndex: nat

    constructor ()
      ensures rrIndexPriority == 0 && rrIndex == 0
    {
      rrIndexPriority, rrIndex := 0, 0;
    }

    method ChooseHost(sets: seq<seq<T>>) returns (host: Option<T>)
      requires Usable(sets, Cursor(rrIndexPriority, rrIndex))
      modifies this
      ensures (host, Cursor(rrIndexPriority, rrIndex)) == Choose(sets, old(Cursor(rrIndexPriority, rrIndex)))
    {
      var hostSetsNum := |sets|;
      FollowingMod(rrIndexPriority, hostSetsNum);
      FollowingMod(rrIndexPriority, WIDTH);
      var curHostSet := sets[rrIndexPriority % hostSetsNum];
      var selectedHostSet := curHostSet;
      if rrIndex >= |curHostSet| {
        rrIndexPriority := (rrIndexPriority + 1) % WIDTH % hostSetsNum;
        rrIndex := 0;
        selectedHostSet := sets[rrIndexPriority];
      }
      if |selectedHostSet| == 0 {
        return None;
      }
      assert selectedHostSet in sets;
      FollowingMod(rrIndex, |selectedHostSet|);
      FollowingMod(rrIndex, WIDTH);
      host := Some(selectedHostSet[rrIndex % |selectedHostSet|]);
      rrIndex := (rrIndex + 1) % WIDTH;
    }
  }

  // The answers of the next n calls.
  function Picks<T>(sets: seq<seq<T>>, c: Cursor, n: nat): (r: seq<Option<T>>)
    requires Usable(sets, c)
    ensures |r| == n
    decreases n
  {
    if n == 0 then [] else var (h, c') := Choose(sets, c); [h] + Picks(sets, c', n - 1)
  }

  // One round: the hosts of every priority in turn, and one empty answer for a priority without hosts.
  function Block<T>(hosts: seq<T>): (r: seq<Option<T>>)
    ensures |r| > 0
  {
    if hosts == [] then [None] else seq(|hosts|, i requires 0 <= i < |hosts| => Some(hosts[i]))
  }

  function Round<T>(sets: seq<seq<T>>): seq<Option<T>> {
    if sets == [] then [] else Block(sets[0]) + Round(sets[1..])
  }

  // Where the block of a priority starts.
  function Start<T>(sets: seq<seq<T>>, p: nat): nat
    requires p <= |sets|
  {
    if p == 0 then 0 else |Block(sets[0])| + Start(sets[1..], p - 1)
  }

  lemma {:induction false} BlockAt<T>(sets: seq<seq<T>>, p: nat, i: nat)
    requires p < |sets| && i < |Block(sets[p])|
    ensures Start(sets, p) + i < |Round(sets)| && Round(sets)[Start(sets, p) + i] == Block(sets[p])[i]
    ensures Start(sets, p + 1) == Start(sets, p) + |Block(sets[p])|
  {
    if p > 0 {
      BlockAt(sets[1..], p - 1, i);
    }
  }

  lemma {:induction false} StartEnd<T>(sets: seq<seq<T>>)
    ensures Start(sets, |sets|) == |Round(sets)|
  {
    if sets != [] { StartEnd(sets[1..]); }
  }

  // The place in the round of the answer to the next call.
  function Place<T>(sets: seq<seq<T>>, c: Cursor): nat
    requires Usable(sets, c)
  {
    if c.index < |sets[c.priority]| then Start(sets, c.priority) + c.index else Start(sets, Following(c.priority, |sets|))
  }

  // A call answers with the place it is at.
  lemma ChooseAnswers<T>(sets: seq<seq<T>>, c: Cursor)
    requires Usable(sets, c)
    ensures var (h, c') := Choose(sets, c); var i := if sets[c'.priority] == [] then 0 else c'.index - 1;
            && Place(sets, c) == Start(sets, c'.priority) + i < |Round(sets)|
            && h == Round(sets)[Place(sets, c)] && i < |Block(sets[c'.priority])|
  {
    var (h, c') := Choose(sets, c);
    var p := c'.priority;
    var i := if sets[p] == [] then 0 else c'.index - 1;
    assert Block(sets[p])[i] == h;
    BlockAt(sets, p, i);
    hide Round, Block, Start, WIDTH;
  }

  // And moves on to the next place.
  lemma ChooseWalks<T>(sets: seq<seq<T>>, c: Cursor)
    requires Usable(sets, c)
    ensures Place(sets, c) < |Round(sets)|
    ensures Choose(sets, c).0 == Round(sets)[Place(sets, c)]
    ensures Place(sets, Choose(sets, c).1) == Following(Place(sets, c), |Round(sets)|)
  {
    ChooseAnswers(sets, c);
    NextPlace(sets, Choose(sets, c).1);
    hide Round, Block, Start, WIDTH, Choose, Place;
  }

  lemma NextPlace<T>(sets: seq<seq<T>>, c: Cursor)
    requires Usable(sets, c) && c.index <= |sets[c.priority]| && (c.index == 0 ==> sets[c.priority] == [])
    ensures var i := if sets[c.priority] == [] then 0 else c.index - 1; var place := Start(sets, c.priority) + i;
            place < |Round(sets)| && Place(sets, c) == Following(place, |Round(sets)|)
  {
    hide Round, Block, Start, WIDTH;
    var p := c.priority;
    BlockFits(sets, p);
    if p + 1 < |sets| { BlockFits(sets, p + 1); }
  }

  // The blocks lie one after the other and fill the round.
  lemma BlockFits<T>(sets: seq<seq<T>>, p: nat)
    requires p < |sets|
    ensures |Block(sets[p])| == if sets[p] == [] then 1 else |sets[p]|
    ensures Start(sets, 0) == 0 && Start(sets, p + 1) == Start(sets, p) + |Block(sets[p])| <= |Round(sets)|
    ensures p + 1 == |sets| ==> Start(sets, p + 1) == |Round(sets)|
  {
    BlockAt(sets, p, |Block(sets[p])| - 1);
    StartEnd(sets);
  }

  lemma {:induction false} PicksWalk<T>(sets: seq<seq<T>>, c: Cursor, n: nat)
    requires Usable(sets, c) && n <= |Round(sets)|
    ensures Place(sets, c) < |Round(sets)|
    ensures Picks(sets, c, n) == (Round(sets)[Place(sets, c)..] + Round(sets)[..Place(sets, c)])[..n]
    decreases n
  {
    ChooseWalks(sets, c);
    if n > 0 {
      var (h, c') := Choose(sets, c);
      PicksWalk(sets, c', n - 1);
      hide Choose, Round, Place, Usable;
      Turn(Round(sets), Place(sets, c), n);
    }
  }

  // A window of a ring is its first element and the window that starts at the next place.
  lemma Turn<A>(ring: seq<A>, p: nat, n: nat)
    requires p < |ring| && 0 < n <= |ring|
    ensures var q := Following(p, |ring|);
            (ring[p..] + ring[..p])[..n] == [ring[p]] + (ring[q..] + ring[..q])[..n - 1]
  {
  }

  lemma {:induction false} RoundCounts<T>(sets: seq<seq<T>>)
    ensures multiset(Round(sets))[None] == Empties(sets)
    ensures |Round(sets)| == Hosts(sets) + Empties(sets)
    ensures forall h :: multiset(Round(sets))[Some(h)] == Occurrences(sets, h)
  {
    if sets != [] {
      RoundCounts(sets[1..]);
      BlockCounts(sets[0]);
      hide Block;
    }
  }

  lemma {:induction false} BlockCounts<T>(hosts: seq<T>)
    ensures multiset(Block(hosts))[None] == if hosts == [] then 1 else 0
    ensures |Block(hosts)| == if hosts == [] then 1 else |hosts|
    ensures forall h :: multiset(Block(hosts))[Some(h)] == multiset(hosts)[h]
  {
    if |hosts| > 0 {
      BlockCounts(hosts[1..]);
      assert hosts == [hosts[0]] + hosts[1..];
      if |hosts| > 1 { assert Block(hosts) == [Some(hosts[0])] + Block(hosts[1..]); }
    }
  }

  // The number of empty priorities, of hosts in all, and of times h occurs.
  function Empties<T>(sets: seq<seq<T>>): nat {
    if sets == [] then 0 else Empties(sets[1..]) + if sets[0] == [] then 1 else 0
  }

  function Hosts<T>(sets: seq<seq<T>>): nat {
    if sets == [] then 0 else Hosts(sets[1..]) + |sets[0]|
  }

  function Occurrences<T(==)>(sets: seq<seq<T>>, h: T): nat {
    if sets == [] then 0 else Occurrences(sets[1..], h) + multiset(sets[0])[h]
  }

  /** Fairness: with N hosts and E empty priorities, any N + E consecutive calls, from any cursor, return every host as
      often as it is listed and nothing exactly E times. */
  lemma Fair<T>(sets: seq<seq<T>>, c: Cursor)
    requires Usable(sets, c)
    ensures var picks := Picks(sets, c, Hosts(sets) + Empties(sets));
            multiset(picks)[None] == Empties(sets) && forall h :: multiset(picks)[Some(h)] == Occurrences(sets, h)
  {
    hide Round, Place, Picks, Empties, Hosts, Occurrences, Usable;
    RoundCounts(sets);
    PicksWalk(sets, c, |Round(sets)|);
    Rotation(Round(sets), Place(sets, c));
  }

  lemma Rotation<A>(ring: seq<A>, p: nat)
    requires p <= |ring|
    ensures var turned := (ring[p..] + ring[..p])[..|ring|]; multiset(turned) == multiset(ring)
  {
    assert ring == ring[..p] + ring[p..];
    assert (ring[p..] + ring[..p])[..|ring|] == ring[p..] + ring[..p];
  }
}
