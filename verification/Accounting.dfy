/** Circuit-breaker accounting of requests: every stream takes one unit of the cluster's request resource and gives it back
    once, however it ends (pkg/stream/codecclient.go, pkg/stream/sofarpc/connpool.go,
    pkg/upstream/cluster/resourcemanager.go).  Each handler runs as one step. */
module Accounting {
  import opened Options
  import opened SortedKeys

  datatype Event =
    | RemoteClose | LocalClose | OnReadErrClose | OnWriteErrClose | OnConnect | Connected | ConnectTimeout | ConnectFailed

  predicate IsClose(e: Event) {
    e == LocalClose || e == RemoteClose || e == OnReadErrClose || e == OnWriteErrClose
  }

  predicate ConnectFailure(e: Event) {
    e == ConnectFailed || e == ConnectTimeout
  }

  datatype Reason = StreamConnectionFailed | StreamConnectionTermination

  datatype Outcome = Ready | Overflow | ConnectionFailure

  /** activeRequest.  It listens to its stream from the start; the unit is given back by whoever sets deleted. */
  class ActiveRequest {
    const client: Client
    var deleted: bool
    var listening: bool
    ghost var given: nat // how often the unit of this request was given back

    constructor (client: Client)
      ensures this.client == client && !deleted && listening && given == 0
    {
      this.client := client;
      deleted, listening, given := false, true, 0;
    }
  }

  // List.Remove on a list without repetitions.
  function Without<T(==)>(xs: seq<T>, x: T): (r: seq<T>)
    ensures x !in r && (forall y :: y in r ==> y in xs) && (forall y :: y in xs ==> y == x || y in r)
  {
    if xs == [] then [] else if xs[0] == x then Without(xs[1..], x) else [xs[0]] + Without(xs[1..], x)
  }

  lemma {:induction false} WithoutDistinct<T>(xs: seq<T>, x: T)
    requires Distinct(xs)
    ensures Distinct(Without(xs, x))
  {
    if xs != [] {
      WithoutDistinct(xs[1..], x);
      var rest := Without(xs[1..], x);
      assert forall j :: 0 <= j < |rest| ==> rest[j] in xs[1..];
    }
  }

  lemma {:induction false} WithoutAbsent<T>(xs: seq<T>, x: T)
    requires x !in xs
    ensures Without(xs, x) == xs
  {
    if xs != [] { WithoutAbsent(xs[1..], x); }
  }

  lemma WithoutFirst<T>(xs: seq<T>)
    requires xs != [] && Distinct(xs)
    ensures Without(xs, xs[0]) == xs[1..]
  {
    WithoutAbsent(xs[1..], xs[0]);
  }

  /** A counter of the resource manager, with the requests it has counted and the clients that hold them. */
  class Resource {
    var current: int
    const max: nat
    ghost var issued: set<ActiveRequest>
    ghost var holders: set<Client>

    constructor (max: nat)
      ensures Balanced() && this.max == max && current == 0 && issued == {} && holders == {}
    {
      this.max := max;
      current, issued, holders := 0, {}, {};
      new;
      assert Active() == {};
    }

    ghost function Active(): set<ActiveRequest>
      reads this`issued, issued`deleted
    {
      set r | r in issued && !r.deleted
    }

    // The counter is the number of active requests, and the lists of the clients hold exactly those, once each.
    ghost predicate Balanced()
      reads this, issued, holders`active
    {
      && current == |Active()|
      && (forall c :: c in holders ==> Holder(c))
      && (forall r :: r in issued ==> Issued(r))
    }

    ghost predicate Holder(c: Client)
      reads this`issued, c`active, issued`deleted
    {
      && c.requests == this && Distinct(c.active)
      && forall r :: r in c.active ==> r in issued && r.client == c && !r.deleted
    }

    ghost predicate Issued(r: ActiveRequest)
      reads this`holders, r, holders`active
    {
      && r.client in holders && (!r.deleted ==> r.listening && r in r.client.active)
      && r.given == if r.deleted then 1 else 0
    }

    lemma HolderOf(c: Client)
      requires Balanced() && c in holders
      ensures Holder(c)
    {
    }

    // Taking an active request off its client's list and giving its unit back keeps the balance.
    twostate lemma Removed(r: ActiveRequest)
      requires old(Balanced()) && issued == old(issued) && holders == old(holders) && current == old(current) - 1
      requires r in issued && !old(r.deleted)
      requires forall x :: x in issued ==>
                 && x.deleted == (x == r || old(x.deleted)) && x.listening == old(x.listening)
                 && x.given == old(x.given) + if x == r then 1 else 0
      requires forall c :: c in holders ==> c.active == if c == r.client then Without(old(c.active), r) else old(c.active)
      ensures Balanced()
    {
      assert old(Issued(r)) && old(Holder(r.client));
      WithoutDistinct(old(r.client.active), r);
      hide Without, Distinct;
      assert Active() == old(Active()) - {r};
      forall c | c in holders ensures Holder(c) {
        assert old(Holder(c));
        if c != r.client { assert r !in c.active; }
      }
      forall x | x in issued ensures Issued(x) { assert old(Issued(x)); }
    }

    // A new request at the end of its client's list, with one unit taken.
    twostate predicate Adds(new r: ActiveRequest, c: Client)
      reads this, r, issued, holders`active
    {
      && issued == old(issued) + {r} && holders == old(holders) && current == old(current) + 1
      && r !in old(issued) && r.client == c && c in holders && !r.deleted && r.listening && r.given == 0
      && (forall x :: x in old(issued) ==> unchanged(x))
      && forall d :: d in holders ==> d.active == if d == c then old(d.active) + [r] else old(d.active)
    }

    twostate lemma AddedHolders(new r: ActiveRequest, c: Client)
      requires old(Balanced()) && Adds(r, c)
      ensures forall d :: d in holders ==> Holder(d)
    {
      assert old(Holder(c));
      assert r !in old(c.active);
      assert Distinct(c.active);
      hide Distinct, Issued;
      forall d | d in holders ensures Holder(d) {
        assert old(Holder(d));
        forall x | x in d.active ensures x in issued && x.client == d && !x.deleted { assert x == r || x in old(d.active); }
      }
    }

    twostate lemma AddedIssued(new r: ActiveRequest, c: Client)
      requires old(Balanced()) && Adds(r, c)
      ensures forall x :: x in issued ==> Issued(x)
    {
      hide Holder;
      forall x | x in issued ensures Issued(x) {
        if x != r { assert old(Issued(x)); }
      }
    }

    // It keeps the balance.
    twostate lemma Added(new r: ActiveRequest, c: Client)
      requires old(Balanced()) && Adds(r, c)
      ensures Balanced()
    {
      assert Active() == old(Active()) + {r};
      AddedIssued(r, c);
      AddedHolders(r, c);
      hide Holder, Issued;
    }

    method CanCreate() returns (can: bool)
      ensures can <==> current < max
    {
      if current < 0 { return true; }
      can := current < max;
    }

    method Increase()
      modifies this`current
      ensures current == old(current) + 1
    {
      current := current + 1;
    }

    method Decrease()
      modifies this`current
      ensures current == old(current) - 1
    {
      current := current - 1;
    }
  }

  /** codecClient: the list of active requests of one connection. */
  class Client {
    const requests: Resource
    var active: seq<ActiveRequest>
    var connectedFlag: bool
    var remoteCloseFlag: bool

    constructor (requests: Resource)
      ensures this.requests == requests && active == [] && !connectedFlag && !remoteCloseFlag
    {
      this.requests := requests;
      active, connectedFlag, remoteCloseFlag := [], false, false;
    }

    /** deleteRequest: only the first call for a request has an effect, and it gives back exactly one unit. */
    method DeleteRequest(r: ActiveRequest)
      requires requests.Balanced() && r in requests.issued && r.client == this
      modifies r`deleted, r`given, this`active, requests`current
      ensures requests.Balanced() && r.deleted
      ensures active == Without(old(active), r)
      ensures requests.current == old(requests.current) - if old(r.deleted) then 0 else 1
    {
      assert requests.Issued(r) && requests.Holder(this);
      if r.deleted {
        WithoutAbsent(active, r);
        return;
      }
      r.deleted := true;
      active := Without(active, r);
      requests.Decrease();
      r.given := r.given + 1;
      requests.Removed(r);
    }

    /** ResetStream of the request's stream, which reaches the request while it listens.  A late reset changes nothing. */
    method Reset(r: ActiveRequest)
      requires requests.Balanced() && r in requests.issued && r.client == this
      modifies r`deleted, r`given, this`active, requests`current
      ensures requests.Balanced() && r.deleted
      ensures active == Without(old(active), r)
      ensures requests.current == old(requests.current) - if old(r.deleted) then 0 else 1
    {
      assert requests.Issued(r) && requests.Holder(this);
      if r.listening {
        DeleteRequest(r);
      } else {
        WithoutAbsent(active, r);
      }
    }

    /** responseDecodeComplete: give the unit back and stop listening. */
    method Complete(r: ActiveRequest)
      requires requests.Balanced() && r in requests.issued && r.client == this
      modifies r, this`active, requests`current
      ensures requests.Balanced() && r.deleted && !r.listening
      ensures active == Without(old(active), r)
      ensures requests.current == old(requests.current) - if old(r.deleted) then 0 else 1
    {
      DeleteRequest(r);
      label L:
      r.listening := false;
      assert requests.Active() == old@L(requests.Active());
      forall x | x in requests.issued ensures requests.Issued(x) { assert old@L(requests.Issued(x)); }
      forall c | c in requests.holders ensures requests.Holder(c) { assert old@L(requests.Holder(c)); }
    }

    /** OnEvent.  A close or a failed connect resets every active request, in order and once each, although every reset
        takes its request off the list being walked: the successor is read before the reset. */
    method OnEvent(event: Event) returns (resets: seq<(ActiveRequest, Reason)>)
      requires requests.Balanced() && this in requests.holders
      modifies this, requests`current, active`deleted, active`given
      ensures requests.Balanced()
      ensures connectedFlag == (old(connectedFlag) || event == Connected)
      ensures remoteCloseFlag == (old(remoteCloseFlag) || event == RemoteClose)
      ensures event in {OnConnect, Connected} ==>
                && resets == [] && active == old(active) && requests.current == old(requests.current)
                && forall r :: r in active ==> r.deleted == old(r.deleted)
      ensures event in {RemoteClose, LocalClose, OnReadErrClose, OnWriteErrClose, ConnectFailed, ConnectTimeout} ==>
                && active == [] && requests.current == old(requests.current) - |old(active)|
                && (forall r :: r in old(active) ==> r.deleted)
                && |resets| == |old(active)|
                && forall i :: 0 <= i < |resets| ==>
                     resets[i] == (old(active)[i], if connectedFlag then StreamConnectionTermination else StreamConnectionFailed)
    {
      hide Resource.Balanced;
      match event {
        case Connected => connectedFlag := true;
        case RemoteClose => remoteCloseFlag := true;
        case _ =>
      }
      resets := [];
      if IsClose(event) || ConnectFailure(event) {
        resets := ResetAll();
      }
    }

    method ResetAll() returns (resets: seq<(ActiveRequest, Reason)>)
      requires requests.Balanced() && this in requests.holders
      modifies this`active, requests`current, active`deleted, active`given
      ensures requests.Balanced() && active == [] && requests.current == old(requests.current) - |old(active)|
      ensures forall r :: r in old(active) ==> r.deleted
      ensures |resets| == |old(active)|
      ensures forall i :: 0 <= i < |resets| ==>
                resets[i] == (old(active)[i], if connectedFlag then StreamConnectionTermination else StreamConnectionFailed)
    {
      hide Resource.Balanced, Without;
      resets := [];
      var ar := Front(active);
      ghost var i := 0;
      while ar != null
        invariant requests.Balanced() && i <= |old(active)|
        invariant active == old(active)[i..] && ar == Front(active)
        invariant requests.current == old(requests.current) - i && |resets| == i
        invariant forall j :: 0 <= j < i ==> old(active)[j].deleted
        invariant forall j :: 0 <= j < i ==>
                    resets[j] == (old(active)[j], if connectedFlag then StreamConnectionTermination else StreamConnectionFailed)
        decreases |active|
      {
        var reason := StreamConnectionFailed;
        var arNext := Next(active, ar);
        if connectedFlag { reason := StreamConnectionTermination; }
        requests.HolderOf(this);
        WithoutFirst(active);
        Reset(ar);
        resets := resets + [(ar, reason)];
        ar := arNext;
        i := i + 1;
      }
    }
  }

  lemma SomeMember(xs: seq<ActiveRequest>)
    ensures xs == [] || exists x :: x in xs
  {
    if xs != [] { assert xs[0] in xs; }
  }

  // List.Front, and Element.Next, which is nil for an element no longer on the list.
  function Front(xs: seq<ActiveRequest>): ActiveRequest? {
    if xs == [] then null else xs[0]
  }

  function Next(xs: seq<ActiveRequest>, x: ActiveRequest): ActiveRequest? {
    if xs == [] then null else if xs[0] == x then Front(xs[1..]) else Next(xs[1..], x)
  }

  /** connPool: at most one client at a time is used for new streams. */
  class ConnPool {
    const requests: Resource
    var activeClient: Client?

    ghost predicate Valid()
      reads this, requests, requests.issued, requests.holders`active
    {
      requests.Balanced() && (activeClient != null ==> activeClient in requests.holders)
    }

    constructor (requests: Resource)
      requires requests.Balanced()
      ensures this.requests == requests && activeClient == null && Valid()
    {
      this.requests := requests;
      activeClient := null;
    }

    // newActiveClient, when the connection comes up.
    method Connect() returns (client: Client)
      requires Valid()
      modifies this`activeClient, requests`holders
      ensures Valid() && activeClient == client && fresh(client) && client.active == []
      ensures requests.holders == old(requests.holders) + {client}
    {
      client := new Client(requests);
      activeClient := client;
      requests.holders := requests.holders + {client};
      forall c | c in requests.holders ensures requests.Holder(c) {
        if c != client { assert old(requests.Holder(c)); }
      }
      forall r | r in requests.issued ensures requests.Issued(r) { assert old(requests.Issued(r)); }
    }

    method Admit() returns (request: ActiveRequest)
      requires Valid() && activeClient != null
      modifies requests`current, requests`issued, activeClient`active
      ensures Valid() && fresh(request) && !request.deleted && request.client == activeClient
      ensures requests.current == old(requests.current) + 1 && requests.issued == old(requests.issued) + {request}
      ensures activeClient.active == old(activeClient.active) + [request]
    {
      requests.Increase();
      request := new ActiveRequest(activeClient);
      activeClient.active := activeClient.active + [request];
      requests.issued := requests.issued + {request};
      requests.Added(request, activeClient);
    }

    /** NewStream: admitted exactly when the counter is below its maximum; an admitted request is new, takes one unit and
        goes to the end of the list of the client in use. */
    method NewStream(connects: bool) returns (outcome: Outcome, request: ActiveRequest?)
      requires Valid()
      modifies this`activeClient, requests, requests.holders`active
      ensures Valid() && requests.holders == old(requests.holders) + if activeClient == null then {} else {activeClient}
      ensures activeClient == old(activeClient) || (old(activeClient) == null && fresh(activeClient))
      ensures activeClient == null <==> old(activeClient) == null && !connects
      ensures fresh(requests.holders - old(requests.holders)) && fresh(requests.issued - old(requests.issued))
      ensures outcome == if old(activeClient) == null && !connects then ConnectionFailure
                         else if old(requests.current) < requests.max then Ready else Overflow
      ensures outcome != Ready ==> requests.current == old(requests.current) && requests.issued == old(requests.issued)
      ensures outcome == Ready <==> request != null
      ensures request != null ==>
                && fresh(request) && !request.deleted && request.client == activeClient
                && requests.current == old(requests.current) + 1 && requests.issued == old(requests.issued) + {request}
      ensures forall c :: c in old(requests.holders) ==>
                c.active == old(c.active) + if request != null && c == activeClient then [request] else []
    {
      hide Resource.Balanced;
      request := null;
      if activeClient == null {
        if !connects { outcome := ConnectionFailure; return; }
        var _ := Connect();
      }
      var can := requests.CanCreate();
      if !can {
        outcome := Overflow;
      } else {
        request := Admit();
        outcome := Ready;
      }
    }

    /** A connection event reaches the codec client first and the pool second.  ConnectTimeout is a connect failure, so
        the pool's separate branch for it is never taken.  The pool lets go of whatever client it uses, also when the
        event comes from an older one. */
    method OnConnectionEvent(client: Client, event: Event) returns (resets: seq<(ActiveRequest, Reason)>)
      requires Valid() && client in requests.holders
      modifies this`activeClient, client, requests`current, client.active`deleted, client.active`given
      ensures Valid()
      ensures requests.current == old(requests.current) - |resets|
      ensures forall r :: r in requests.issued ==> (old(r.deleted) ==> r.deleted) && (r.client != client ==> r.deleted == old(r.deleted))
      ensures event in {RemoteClose, LocalClose, OnReadErrClose, OnWriteErrClose, ConnectFailed, ConnectTimeout} ==>
                activeClient == null && client.active == [] && |resets| == |old(client.active)|
      ensures event in {OnConnect, Connected} ==>
                && activeClient == old(activeClient) && client.active == old(client.active) && resets == []
                && forall r :: r in requests.issued ==> r.deleted == old(r.deleted)
    {
      requests.HolderOf(client);
      hide Resource.Balanced, Resource.Holder;
      resets := client.OnEvent(event);
      if IsClose(event) || ConnectFailure(event) {
        activeClient := null;
      }
    }
  }

  // The lengths of the clients' lists, added up.
  ghost function Total(clients: seq<Client>): nat
    reads clients`active
  {
    if clients == [] then 0 else Total(clients[1..]) + |clients[0].active|
  }

  ghost function ActiveOf(requests: Resource, clients: seq<Client>): set<ActiveRequest>
    reads requests`issued, requests.issued`deleted
  {
    set r | r in requests.issued && !r.deleted && r.client in clients
  }

  lemma {:induction false} TotalCounts(requests: Resource, clients: seq<Client>)
    requires requests.Balanced() && Distinct(clients) && forall c :: c in clients ==> c in requests.holders
    ensures Total(clients) == |ActiveOf(requests, clients)|
  {
    if clients == [] {
      assert ActiveOf(requests, clients) == {};
    } else {
      var c := clients[0];
      TotalCounts(requests, clients[1..]);
      requests.HolderOf(c);
      DistinctSize(c.active);
      var own := set r | r in c.active;
      assert ActiveOf(requests, clients) == ActiveOf(requests, clients[1..]) + own;
      assert ActiveOf(requests, clients[1..]) !! own;
    }
  }

  lemma {:induction false} DistinctSize(xs: seq<ActiveRequest>)
    requires Distinct(xs)
    ensures |set x | x in xs| == |xs|
  {
    if xs != [] {
      DistinctSize(xs[1..]);
      assert (set x | x in xs) == (set x | x in xs[1..]) + {xs[0]};
    }
  }

  /** The counter is the total length of the lists of all clients of all pools, whatever order they are added up in. */
  lemma CounterIsTotal(requests: Resource, clients: seq<Client>)
    requires requests.Balanced() && Distinct(clients) && forall c :: c in clients ==> c in requests.holders
    requires forall c :: c in requests.holders ==> c in clients
    ensures requests.current == Total(clients) >= 0
  {
    TotalCounts(requests, clients);
    assert ActiveOf(requests, clients) == requests.Active();
  }

  datatype Step =
    | NewStream(pool: nat, connects: bool)
    | Reset(request: nat)
    | Complete(request: nat)
    | Event(client: nat, event: Event)

  /** What a run has done so far, by number: the client each pool uses, the pool of each client, and for each request its
      client and whether it still holds its unit. */
  datatype Ledger = Ledger(inUse: seq<Option<nat>>, owners: seq<nat>, requests: seq<(nat, bool)>)

  ghost predicate Wellformed(l: Ledger) {
    && (forall k :: 0 <= k < |l.inUse| && l.inUse[k].Some? ==> l.inUse[k].value < |l.owners|)
    && (forall i :: 0 <= i < |l.owners| ==> l.owners[i] < |l.inUse|)
    && forall j :: 0 <= j < |l.requests| ==> l.requests[j].0 < |l.owners|
  }

  // How many requests hold a unit.
  function Held(requests: seq<(nat, bool)>): nat {
    if requests == [] then 0 else Held(requests[..|requests| - 1]) + if requests[|requests| - 1].1 then 1 else 0
  }

  function Perform(max: nat, l: Ledger, step: Step): (r: Ledger)
    requires Wellformed(l)
    ensures Wellformed(r)
  {
    match step
    case NewStream(p, connects) =>
      if p >= |l.inUse| || (l.inUse[p].None? && !connects) then l
      else
        var l1 := if l.inUse[p].Some? then l else l.(inUse := l.inUse[p := Some(|l.owners|)], owners := l.owners + [p]);
        if Held(l.requests) < max then l1.(requests := l.requests + [(l1.inUse[p].value, true)]) else l1
    case Reset(j) => if j < |l.requests| then l.(requests := GivenBack(l.requests, j)) else l
    case Complete(j) => if j < |l.requests| then l.(requests := GivenBack(l.requests, j)) else l
    case Event(i, event) =>
      if i < |l.owners| && event !in {OnConnect, Connected} then
        l.(inUse := l.inUse[l.owners[i] := None], requests := AllGivenBack(l.requests, i))
      else l
  }

  function GivenBack(requests: seq<(nat, bool)>, j: nat): seq<(nat, bool)>
    requires j < |requests|
  {
    requests[j := (requests[j].0, false)]
  }

  // Every request of client i gives its unit back.
  function AllGivenBack(requests: seq<(nat, bool)>, i: nat): (r: seq<(nat, bool)>)
    ensures |r| == |requests| && forall j :: 0 <= j < |r| ==> r[j] == (requests[j].0, requests[j].1 && requests[j].0 != i)
  {
    seq(|requests|, j requires 0 <= j < |requests| => (requests[j].0, requests[j].1 && requests[j].0 != i))
  }

  function Performed(max: nat, pools: nat, steps: seq<Step>): (l: Ledger)
    ensures Wellformed(l)
  {
    if steps == [] then Ledger(seq(pools, _ => None), [], [])
    else Perform(max, Performed(max, pools, steps[..|steps| - 1]), steps[|steps| - 1])
  }

  // Requests keep their number and their client, and a unit given back is never held again.
  lemma LedgerGrows(max: nat, l: Ledger, step: Step)
    requires Wellformed(l)
    ensures var r := Perform(max, l, step).requests;
            && |l.requests| <= |r| <= |l.requests| + 1
            && forall j :: 0 <= j < |l.requests| ==> r[j].0 == l.requests[j].0 && (r[j].1 ==> l.requests[j].1)
  {
  }

  // The client a pool uses is one of its own.
  ghost predicate Owned(l: Ledger) {
    forall p :: 0 <= p < |l.inUse| && l.inUse[p].Some? ==> l.inUse[p].value < |l.owners| && l.owners[l.inUse[p].value] == p
  }

  // No pool uses client i, and none of its requests holds a unit.
  ghost predicate Gone(l: Ledger, i: nat) {
    && i < |l.owners| && (forall p :: 0 <= p < |l.inUse| ==> l.inUse[p] != Some(i))
    && forall j :: 0 <= j < |l.requests| && l.requests[j].0 == i ==> !l.requests[j].1
  }

  // At step k something ends the connection of a client that there is.
  ghost predicate Ended(max: nat, pools: nat, steps: seq<Step>, k: nat)
    requires k < |steps|
  {
    && steps[k].Event? && steps[k].event !in {OnConnect, Connected}
    && steps[k].client < |Performed(max, pools, steps[..k]).owners|
  }

  lemma StepKeepsGone(max: nat, l: Ledger, step: Step, i: nat)
    requires Wellformed(l) && Owned(l)
    ensures Owned(Perform(max, l, step)) && (Gone(l, i) ==> Gone(Perform(max, l, step), i))
    ensures i < |l.owners| && step.Event? && step.client == i && step.event !in {OnConnect, Connected} ==> Gone(Perform(max, l, step), i)
  {
    hide Held;
  }

  lemma {:induction false} AlwaysOwned(max: nat, pools: nat, steps: seq<Step>)
    ensures Owned(Performed(max, pools, steps))
  {
    hide Perform, Owned, Gone;
    if steps == [] {
      NothingInUse(max, pools);
    } else {
      AlwaysOwned(max, pools, steps[..|steps| - 1]);
      StepKeepsGone(max, Performed(max, pools, steps[..|steps| - 1]), steps[|steps| - 1], 0);
    }
  }

  lemma NothingInUse(max: nat, pools: nat)
    ensures Owned(Performed(max, pools, []))
  {
  }

  /** Whatever ends the connection of client i, at step k: from then on no request of that client holds a unit, and no pool
      uses the client, however the run goes on. */
  lemma {:induction false} ClosedForGood(max: nat, pools: nat, steps: seq<Step>, k: nat, i: nat)
    requires k < |steps| && i < |Performed(max, pools, steps[..k]).owners|
    requires steps[k].Event? && steps[k].client == i && steps[k].event !in {OnConnect, Connected}
    ensures Gone(Performed(max, pools, steps), i)
  {
    hide Perform, Owned, Gone, Wellformed;
    var last := |steps| - 1;
    AlwaysOwned(max, pools, steps[..last]);
    if k < last {
      assert steps[..last][..k] == steps[..k];
      ClosedForGood(max, pools, steps[..last], k, i);
    }
    StepKeepsGone(max, Performed(max, pools, steps[..last]), steps[last], i);
  }

  ghost function StillActive(made: seq<ActiveRequest>): set<ActiveRequest>
    reads made`deleted
  {
    set r | r in made && !r.deleted
  }

  lemma StillActiveSnoc(front: seq<ActiveRequest>, x: ActiveRequest)
    requires x !in front
    ensures |StillActive(front + [x])| == |StillActive(front)| + if x.deleted then 0 else 1
  {
    if x.deleted {
      assert StillActive(front + [x]) == StillActive(front);
    } else {
      assert StillActive(front + [x]) == StillActive(front) + {x};
    }
  }

  lemma {:induction false} HeldCounts(made: seq<ActiveRequest>, requests: seq<(nat, bool)>)
    requires Distinct(made) && |made| == |requests| && forall j :: 0 <= j < |made| ==> made[j].deleted == !requests[j].1
    ensures |StillActive(made)| == Held(requests)
  {
    if made != [] {
      var last := |made| - 1;
      var front := made[..last];
      HeldCounts(front, requests[..last]);
      assert made == front + [made[last]] && made[last] !in front;
      hide StillActive;
      StillActiveSnoc(front, made[last]);
    }
  }

  ghost function Uses(pools: seq<ConnPool>): (r: seq<Client?>)
    reads pools`activeClient
    ensures |r| == |pools| && forall k :: 0 <= k < |pools| ==> r[k] == pools[k].activeClient
  {
    if pools == [] then [] else Uses(pools[..|pools| - 1]) + [pools[|pools| - 1].activeClient]
  }

  ghost function Deleted(made: seq<ActiveRequest>): (r: seq<bool>)
    reads made`deleted
    ensures |r| == |made| && forall j :: 0 <= j < |made| ==> r[j] == made[j].deleted
  {
    if made == [] then [] else Deleted(made[..|made| - 1]) + [made[|made| - 1].deleted]
  }

  // The objects of a cluster at one moment: the client each pool uses, and which requests have given their unit back.
  datatype View = View(uses: seq<Client?>, clients: seq<Client>, owners: seq<ConnPool>, made: seq<ActiveRequest>, deleted: seq<bool>)

  // The objects are as the ledger says.
  ghost predicate Matches(pools: seq<ConnPool>, v: View, l: Ledger) {
    && Wellformed(l) && |l.inUse| == |v.uses| == |pools| && |l.owners| == |v.clients| == |v.owners|
    && |l.requests| == |v.made| == |v.deleted|
    && (forall k :: 0 <= k < |v.uses| ==> v.uses[k] == if l.inUse[k].None? then null else v.clients[l.inUse[k].value])
    && (forall i :: 0 <= i < |v.owners| ==> v.owners[i] == pools[l.owners[i]])
    && forall j :: 0 <= j < |v.made| ==> v.made[j].client == v.clients[l.requests[j].0] && v.deleted[j] == !l.requests[j].1
  }

  // What NewStream on pool i does to the objects; there is a client afterwards unless there was none and none could be had.
  ghost predicate Streams(pools: seq<ConnPool>, v: View, w: View, i: nat, connects: bool, outcome: Outcome)
    requires i < |pools| == |v.uses|
  {
    var connected := v.uses[i] == null && connects;
    && |w.uses| == |v.uses| && w.uses == v.uses[i := w.uses[i]] && (w.uses[i] == null <==> outcome == ConnectionFailure)
    && (outcome == ConnectionFailure <==> v.uses[i] == null && !connects)
    && (!connected ==> w.uses == v.uses && w.clients == v.clients && w.owners == v.owners)
    && (connected ==> w.uses[i] != null && w.clients == v.clients + [w.uses[i]] && w.owners == v.owners + [pools[i]])
    && (outcome != Ready ==> w.made == v.made && w.deleted == v.deleted)
    && (outcome == Ready ==> && |w.made| == |v.made| + 1 && w.made == v.made + [w.made[|v.made|]]
                             && w.made[|v.made|].client == w.uses[i] && w.deleted == v.deleted + [false])
  }

  lemma StreamMatches(pools: seq<ConnPool>, v: View, w: View, l: Ledger, max: nat, i: nat, connects: bool, outcome: Outcome)
    requires Matches(pools, v, l) && i < |pools| && Streams(pools, v, w, i, connects, outcome)
    requires outcome == Ready <==> !(v.uses[i] == null && !connects) && Held(l.requests) < max
    ensures Matches(pools, w, Perform(max, l, NewStream(i, connects)))
  {
    hide Held;
  }

  lemma EndMatches(pools: seq<ConnPool>, v: View, l: Ledger, j: nat)
    requires Matches(pools, v, l) && j < |v.made|
    ensures Matches(pools, v.(deleted := v.deleted[j := true]), l.(requests := GivenBack(l.requests, j)))
  {
  }

  // What a close of client i does to the objects.
  ghost predicate Closes(v: View, w: View, i: nat)
    requires i < |v.clients|
  {
    && w.clients == v.clients && w.owners == v.owners && w.made == v.made && |w.uses| == |v.uses| && |w.deleted| == |v.deleted|
    && |v.deleted| == |v.made| && forall j :: 0 <= j < |v.made| ==> w.deleted[j] == (v.deleted[j] || v.made[j].client == v.clients[i])
  }

  lemma CloseMatches(pools: seq<ConnPool>, v: View, w: View, l: Ledger, max: nat, i: nat, event: Event)
    requires Matches(pools, v, l) && Distinct(v.clients) && i < |v.clients| && event !in {OnConnect, Connected}
    requires Closes(v, w, i) && w.uses == v.uses[l.owners[i] := null]
    ensures Matches(pools, w, Perform(max, l, Event(i, event)))
  {
  }

  lemma Ignored(max: nat, l: Ledger, i: nat, event: Event)
    requires Wellformed(l) && event in {OnConnect, Connected}
    ensures Perform(max, l, Event(i, event)) == l
  {
  }

  /** A cluster: its pools share one request resource, and every client and request is on record. */
  class Upstream {
    const requests: Resource
    const pools: seq<ConnPool>
    var clients: seq<Client>
    var owners: seq<ConnPool> // the pool of each client
    var made: seq<ActiveRequest>

    ghost function Pools(): set<ConnPool> {
      set p | p in pools
    }

    ghost predicate Valid()
      reads this, requests, requests.issued, requests.holders`active, Pools()`activeClient
    {
      && requests.Balanced() && requests.current <= requests.max && Distinct(pools)
      && (forall p :: p in pools ==> p.requests == requests && (p.activeClient != null ==> p.activeClient in requests.holders))
      && Distinct(clients) && (set c | c in clients) == requests.holders
      && |owners| == |clients| && (forall p :: p in owners ==> p in pools)
      && Distinct(made) && (set r | r in made) == requests.issued
    }

    ghost function Now(): View
      reads this, pools`activeClient, made`deleted
    {
      View(Uses(pools), clients, owners, made, Deleted(made))
    }

    constructor (requests: Resource, pools: seq<ConnPool>)
      requires requests.Balanced() && requests.current == 0 && requests.issued == {} && requests.holders == {} && Distinct(pools)
      requires forall p :: p in pools ==> p.requests == requests && p.activeClient == null
      ensures Valid() && this.requests == requests && this.pools == pools && clients == [] && made == []
      ensures Matches(pools, Now(), Performed(requests.max, |pools|, []))
    {
      this.requests, this.pools := requests, pools;
      clients, owners, made := [], [], [];
    }

    lemma CounterIsHeld(l: Ledger)
      requires Valid() && Matches(pools, Now(), l)
      ensures requests.current == Held(l.requests)
    {
      HeldCounts(made, l.requests);
      assert requests.Active() == StillActive(made);
    }

    // No pool uses client i, its list is empty and each of its requests has given its unit back.
    ghost predicate Forgotten(i: nat)
      reads this, pools`activeClient, clients`active, made`deleted
    {
      && i < |clients| && clients[i].active == [] && (forall p :: p in pools ==> p.activeClient != clients[i])
      && forall r :: r in made && r.client == clients[i] ==> r.deleted
    }

    lemma GoneIsForgotten(l: Ledger, i: nat)
      requires Valid() && Matches(pools, Now(), l) && Gone(l, i)
      ensures Forgotten(i)
    {
      requests.HolderOf(clients[i]);
      forall r | r in clients[i].active ensures r in made && r.client == clients[i] && !r.deleted { assert r in requests.issued; }
      SomeMember(clients[i].active);
      forall p | p in pools ensures p.activeClient != clients[i] {
        var k :| 0 <= k < |pools| && pools[k] == p;
        assert Now().uses[k] == p.activeClient;
      }
      forall r | r in made && r.client == clients[i] ensures r.deleted {
        var j :| 0 <= j < |made| && made[j] == r;
        assert Now().deleted[j] == r.deleted;
      }
    }

    lemma AllForgotten(max: nat, poolCount: nat, steps: seq<Step>)
      requires Valid() && Matches(pools, Now(), Performed(max, poolCount, steps))
      ensures forall k :: 0 <= k < |steps| && Ended(max, poolCount, steps, k) ==> Forgotten(steps[k].client)
    {
      hide Valid, Now, Matches, Performed, Gone, Forgotten;
      forall k | 0 <= k < |steps| && Ended(max, poolCount, steps, k) ensures Forgotten(steps[k].client)
      {
        ClosedForGood(max, poolCount, steps, k, steps[k].client);
        GoneIsForgotten(Performed(max, poolCount, steps), steps[k].client);
      }
    }

    lemma Ending()
      requires Valid()
      ensures 0 <= requests.current == Total(clients) <= requests.max
      ensures forall r :: r in made ==> r.given == if r.deleted then 1 else 0
    {
      CounterIsTotal(requests, clients);
      forall r | r in made ensures r.given == if r.deleted then 1 else 0 { assert requests.Issued(r); }
    }

    method NewStream(i: nat, connects: bool) returns (outcome: Outcome)
      requires Valid() && i < |pools|
      modifies this, requests, Pools()`activeClient, requests.holders`active
      ensures Valid() && Streams(pools, old(Now()), Now(), i, connects, outcome)
      ensures outcome == Ready <==> !(old(Now()).uses[i] == null && !connects) && old(requests.current) < requests.max
      ensures fresh(requests.holders - old(requests.holders)) && fresh(requests.issued - old(requests.issued))
    {
      hide Resource.Balanced, Uses, Deleted, Distinct, Streams;
      ghost var v := Now();
      var p, r := pools[i], null;
      outcome, r := p.NewStream(connects);
      Unused(i, v);
      Record(p, r);
      Streamed(v, i, connects, outcome, r);
    }

    // The other pools use what they used.
    lemma Unused(i: nat, v: View)
      requires i < |pools| == |v.uses| && forall k :: 0 <= k < |pools| && pools[k] != pools[i] ==> pools[k].activeClient == v.uses[k]
      requires Distinct(pools)
      ensures Uses(pools) == v.uses[i := pools[i].activeClient]
    {
    }

    lemma Streamed(v: View, i: nat, connects: bool, outcome: Outcome, r: ActiveRequest?)
      requires i < |pools| == |v.uses| && Uses(pools) == v.uses[i := pools[i].activeClient]
      requires |v.deleted| == |v.made| <= |made| && forall j :: 0 <= j < |v.made| ==> made[j].deleted == v.deleted[j]
      requires made == v.made + (if r == null then [] else [r]) && (r != null ==> r.client == pools[i].activeClient && !r.deleted)
      requires (outcome == Ready <==> r != null) && (outcome == ConnectionFailure <==> v.uses[i] == null && !connects)
      requires (pools[i].activeClient == null <==> outcome == ConnectionFailure) && (v.uses[i] != null ==> pools[i].activeClient == v.uses[i])
      requires v.uses[i] != null || !connects ==> clients == v.clients && owners == v.owners
      requires v.uses[i] == null && connects ==> clients == v.clients + [pools[i].activeClient] && owners == v.owners + [pools[i]]
      ensures Streams(pools, v, Now(), i, connects, outcome)
    {
      assert Deleted(made) == v.deleted + if r == null then [] else [false];
    }

    // Put a new client or a new request on record.
    method Record(p: ConnPool, r: ActiveRequest?)
      requires requests.Balanced() && requests.current <= requests.max && Distinct(pools) && p in pools
      requires forall q :: q in pools ==> q.requests == requests && (q.activeClient != null ==> q.activeClient in requests.holders)
      requires Distinct(clients) && (set c | c in clients) + (if p.activeClient == null then {} else {p.activeClient}) == requests.holders
      requires |owners| == |clients| && (forall q :: q in owners ==> q in pools)
      requires Distinct(made) && r !in made && (set x | x in made) + (if r == null then {} else {r}) == requests.issued
      modifies this`clients, this`owners, this`made
      ensures Valid() && made == old(made) + if r == null then [] else [r]
      ensures p.activeClient == null || p.activeClient in old(clients) ==> clients == old(clients) && owners == old(owners)
      ensures p.activeClient != null && p.activeClient !in old(clients) ==>
                clients == old(clients) + [p.activeClient] && owners == old(owners) + [p]
    {
      hide Resource.Balanced;
      if p.activeClient != null && p.activeClient !in clients {
        clients, owners := clients + [p.activeClient], owners + [p];
      }
      if r != null { made := made + [r]; }
    }
  
    /** A reset or a completed response: request i has given its unit back, and no other request is touched. */
    method End(i: nat, complete: bool)
      requires Valid() && i < |made|
      modifies requests`current, requests.holders`active, requests.issued
      ensures Valid() && Now() == old(Now()).(deleted := old(Now()).deleted[i := true])
      ensures requests.current == old(requests.current) - if old(made[i].deleted) then 0 else 1
      ensures made[i].client.active == Without(old(made[i].client.active), made[i])
    {
      var r := made[i];
      assert requests.Issued(r) && requests.Holder(r.client);
      hide Resource.Balanced, Distinct, Uses, Deleted, Without, Resource.Issued, Resource.Holder;
      ghost var v := Now();
      Finish(r, complete);
      Untouched(i, v);
      assert Uses(pools) == v.uses;
    }

    method Finish(r: ActiveRequest, complete: bool)
      requires r.client.requests == requests && requests.Balanced() && r in requests.issued
      modifies r, r.client`active, requests`current
      ensures requests.Balanced() && r.deleted && r.client.active == Without(old(r.client.active), r)
      ensures requests.current == old(requests.current) - if old(r.deleted) then 0 else 1
    {
      hide Resource.Balanced, Without;
      if complete {
        r.client.Complete(r);
      } else {
        r.client.Reset(r);
      }
    }

    lemma Untouched(i: nat, v: View)
      requires Distinct(made) && i < |made| == |v.deleted| && made[i].deleted
      requires forall j :: 0 <= j < |made| && made[j] != made[i] ==> made[j].deleted == v.deleted[j]
      ensures Deleted(made) == v.deleted[i := true]
    {
    }

    /** A connection event: a close or failed connect of client i ends exactly its requests, and its pool uses no client
        afterwards; any other event changes nothing here. */
    method OnEvent(i: nat, event: Event)
      requires Valid() && i < |clients|
      modifies requests`current, Pools()`activeClient, requests.holders, requests.issued
      ensures Valid()
      ensures var closing := event in {RemoteClose, LocalClose, OnReadErrClose, OnWriteErrClose, ConnectFailed, ConnectTimeout};
              && requests.current == old(requests.current) - (if closing then |old(clients[i].active)| else 0)
              && clients[i].active == (if closing then [] else old(clients[i].active))
              && (forall r :: r in made ==> r.deleted == (old(r.deleted) || (closing && r.client == clients[i])))
              && forall p :: p in pools ==> p.activeClient == if closing && p == owners[i] then null else old(p.activeClient)
    {
      assert requests.Holder(clients[i]);
      hide Resource.Balanced, Resource.Holder, Distinct;
      var _ := owners[i].OnConnectionEvent(clients[i], event);
      if IsClose(event) || ConnectFailure(event) { Emptied(i); }
    }

    // A client with an empty list has no active request.
    lemma Emptied(i: nat)
      requires requests.Balanced() && i < |clients| && clients[i].active == [] && (set r | r in made) == requests.issued
      ensures forall r :: r in made && r.client == clients[i] ==> r.deleted
    {
      forall r | r in made && r.client == clients[i] ensures r.deleted { assert requests.Issued(r); }
    }

    lemma Closed(i: nat, v: View, l: Ledger)
      requires Matches(pools, v, l) && Distinct(pools) && i < |clients|
      requires v.clients == clients && v.owners == owners && v.made == made
      requires forall j :: 0 <= j < |made| ==> made[j].deleted == (v.deleted[j] || made[j].client == clients[i])
      requires forall k :: 0 <= k < |pools| ==> pools[k].activeClient == if pools[k] == owners[i] then null else v.uses[k]
      ensures Closes(v, Now(), i) && Now().uses == v.uses[l.owners[i] := null]
    {
    }

    // A view is right if it agrees field by field.
    lemma NowIs(v: View)
      requires v.clients == clients && v.owners == owners && v.made == made && |v.uses| == |pools| && |v.deleted| == |made|
      ensures v == Now() <==> (forall k :: 0 <= k < |pools| ==> v.uses[k] == pools[k].activeClient)
                              && forall j :: 0 <= j < |made| ==> v.deleted[j] == made[j].deleted
    {
    }

    /** One step of a run does to the objects what it does to the ledger. */
    method Do(step: Step, ghost l: Ledger)
      requires Valid() && Matches(pools, Now(), l)
      modifies this, requests, Pools()`activeClient, requests.holders, requests.issued
      ensures Valid() && Matches(pools, Now(), Perform(requests.max, l, step))
      ensures fresh(requests.holders - old(requests.holders)) && fresh(requests.issued - old(requests.issued))
    {
      hide Valid, Matches, Now, Wellformed, Held, AllGivenBack, GivenBack;
      Sizes(l);
      match step {
        case NewStream(i, connects) => if i < |pools| { DoStream(i, connects, l); }
        case Reset(i) => if i < |made| { DoEnd(i, false, l); }
        case Complete(i) => if i < |made| { DoEnd(i, true, l); }
        case Event(i, event) => if i < |clients| { DoEvent(i, event, l); }
      }
    }

    method DoStream(i: nat, connects: bool, ghost l: Ledger)
      requires Valid() && Matches(pools, Now(), l) && i < |pools|
      modifies this, requests, Pools()`activeClient, requests.holders`active
      ensures Valid() && Matches(pools, Now(), Perform(requests.max, l, Step.NewStream(i, connects)))
      ensures fresh(requests.holders - old(requests.holders)) && fresh(requests.issued - old(requests.issued))
    {
      CounterIsHeld(l);
      assert |Now().uses| == |pools|;
      hide Valid, Held, Streams, Matches, Now;
      ghost var v := Now();
      var outcome := NewStream(i, connects);
      StreamMatches(pools, v, Now(), l, requests.max, i, connects, outcome);
    }

    method DoEnd(i: nat, complete: bool, ghost l: Ledger)
      requires Valid() && Matches(pools, Now(), l) && i < |made|
      modifies requests`current, requests.holders`active, requests.issued
      ensures Valid() && i < |l.requests| && Matches(pools, Now(), l.(requests := GivenBack(l.requests, i)))
    {
      Sizes(l);
      hide Valid, Matches;
      ghost var v := Now();
      End(i, complete);
      EndMatches(pools, v, l, i);
    }

    method DoEvent(i: nat, event: Event, ghost l: Ledger)
      requires Valid() && Matches(pools, Now(), l) && i < |clients|
      modifies requests`current, Pools()`activeClient, requests.holders, requests.issued
      ensures Valid() && Matches(pools, Now(), Perform(requests.max, l, Step.Event(i, event)))
    {
      hide Valid, Closes, Matches, Distinct, Now, Perform;
      Snapshot(l);
      ghost var v := Now();
      OnEvent(i, event);
      if event !in {OnConnect, Connected} {
        Closed(i, v, l);
        CloseMatches(pools, v, Now(), l, requests.max, i, event);
      } else {
        Ignored(requests.max, l, i, event);
        NowIs(v);
      }
    }

    // What the view and the ledger say, without their definitions.
    lemma Snapshot(l: Ledger)
      requires Valid() && Matches(pools, Now(), l)
      ensures Distinct(pools) && Distinct(clients) && Wellformed(l) && |l.owners| == |clients|
      ensures var v := Now();
              && v.clients == clients && v.owners == owners && v.made == made && |v.uses| == |pools| && |v.deleted| == |made|
              && (forall k :: 0 <= k < |pools| ==> v.uses[k] == pools[k].activeClient)
              && forall j :: 0 <= j < |made| ==> v.deleted[j] == made[j].deleted
    {
    }

    lemma Sizes(l: Ledger)
      requires Matches(pools, Now(), l)
      ensures Wellformed(l) && |l.inUse| == |pools| && |l.owners| == |clients| && |l.requests| == |made|
    {
    }
  }

  method MakePools(requests: Resource, n: nat) returns (pools: seq<ConnPool>)
    requires requests.Balanced()
    ensures |pools| == n && Distinct(pools)
    ensures forall p :: p in pools ==> fresh(p) && p.requests == requests && p.activeClient == null
  {
    hide Resource.Balanced;
    pools := [];
    for i := 0 to n
      invariant |pools| == i && Distinct(pools)
      invariant forall p :: p in pools ==> fresh(p) && p.requests == requests && p.activeClient == null
    {
      var p := new ConnPool(requests);
      pools := pools + [p];
    }
  }

  /** Any run, over any number of pools: the objects end up as the ledger of the steps says, the counter is the number of
      units held and the total length of the clients' lists, it stays between zero and its maximum, and no request gives its
      unit back twice. */
  method Run(max: nat, poolCount: nat, steps: seq<Step>) returns (u: Upstream)
    ensures u.Valid() && u.requests.max == max && |u.pools| == poolCount
    ensures var l := Performed(max, poolCount, steps); Matches(u.pools, u.Now(), l) && u.requests.current == Held(l.requests)
    ensures 0 <= u.requests.current == Total(u.clients) <= max
    ensures forall r :: r in u.made ==> r.given == if r.deleted then 1 else 0
    ensures forall k :: 0 <= k < |steps| && Ended(max, poolCount, steps, k) ==> u.Forgotten(steps[k].client)
  {
    hide Resource.Balanced, Distinct, Matches, Perform, Gone, Owned, Ended, Upstream.Forgotten;
    var requests := new Resource(max);
    var pools := MakePools(requests, poolCount);
    u := new Upstream(requests, pools);
    hide Upstream.Valid, Upstream.Now;
    for k := 0 to |steps|
      invariant u.Valid() && fresh(u) && fresh(u.requests) && fresh(u.Pools()) && u.requests.max == max && |u.pools| == poolCount
      invariant Matches(u.pools, u.Now(), Performed(max, poolCount, steps[..k]))
      invariant fresh(u.requests.holders) && fresh(u.requests.issued)
    {
      assert steps[..k + 1][..k] == steps[..k];
      u.Do(steps[k], Performed(max, poolCount, steps[..k]));
    }
    assert steps[..|steps|] == steps;
    u.CounterIsHeld(Performed(max, poolCount, steps));
    u.Ending();
    u.AllForgotten(max, poolCount, steps);
  }
}
