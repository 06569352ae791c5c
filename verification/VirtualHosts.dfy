/** Choosing the virtual host of a request by its host header (NewRouteMatcher, findVirtualHost and
    findWildcardVirtualHost in pkg/router/routematcher.go).  Lowercasing is a parameter: nothing depends on what it does. */
module VirtualHosts {
  import opened Options
  import opened SortedKeys

  datatype VirtualHost = VirtualHost(name: string)

  // One virtual host of the configuration; invalid ones are refused when they are built.
  datatype Config = Config(host: VirtualHost, domains: seq<string>, valid: bool)

  datatype Error = InvalidVirtualHost | DuplicateDefault | DuplicateDomain(domain: string)

  // The tables of routeMatcher: exact domains, the default, wildcard suffixes by length, and the lengths in use.
  datatype RouteMatcher = RouteMatcher(
    virtualHosts: map<string, VirtualHost>,
    defaultVirtualHost: Option<VirtualHost>,
    wildcards: map<nat, map<string, VirtualHost>>,
    lengths: seq<nat>)

  datatype Result = Ok(matcher: RouteMatcher) | Err(error: Error)

  const STAR: string := "*"
  const HOST: string := "host"

  predicate Exact(domain: string) {
    domain == "" || domain[0] != '*'
  }

  // What the configuration asks for, in order.
  datatype Item = Invalid | Domain(name: string, host: VirtualHost)

  function ItemsOf(c: Config, lower: string -> string): seq<Item> {
    if !c.valid then [Invalid] else seq(|c.domains|, i requires 0 <= i < |c.domains| => Domain(lower(c.domains[i]), c.host))
  }

  function Items(configs: seq<Config>, lower: string -> string): seq<Item> {
    if configs == [] then [] else Items(configs[..|configs| - 1], lower) + ItemsOf(configs[|configs| - 1], lower)
  }

  // The j-th item is refused: it is invalid, or its domain has been used before.
  predicate Refused(items: seq<Item>, j: nat)
    requires j < |items|
  {
    items[j].Invalid? || exists i :: 0 <= i < j && items[i].Domain? && items[i].name == items[j].name
  }

  predicate Accepted(items: seq<Item>) {
    forall j :: 0 <= j < |items| ==> !Refused(items, j)
  }

  // The domains of an accepted configuration.
  function Domains(items: seq<Item>): map<string, VirtualHost> {
    if items == [] then map[]
    else
      var front := Domains(items[..|items| - 1]);
      var item := items[|items| - 1];
      if item.Invalid? then front else front[item.name := item.host]
  }

  lemma {:induction false} DomainsNames(items: seq<Item>, d: string)
    ensures d in Domains(items) <==> exists i :: 0 <= i < |items| && items[i].Domain? && items[i].name == d
  {
    if items != [] {
      var front := items[..|items| - 1];
      DomainsNames(front, d);
      assert forall i :: 0 <= i < |front| ==> items[i] == front[i];
    }
  }

  // Whether an item is refused depends on what comes before it only.
  lemma RefusedBefore(items: seq<Item>, more: seq<Item>, j: nat)
    requires j < |items|
    ensures Refused(items + more, j) <==> Refused(items, j)
  {
    var all := items + more;
    assert forall i :: 0 <= i <= j ==> all[i] == items[i];
    if Refused(all, j) && !all[j].Invalid? {
      var i :| 0 <= i < j && all[i].Domain? && all[i].name == all[j].name;
      assert items[i].Domain? && items[i].name == items[j].name;
    }
    if Refused(items, j) && !items[j].Invalid? {
      var i :| 0 <= i < j && items[i].Domain? && items[i].name == items[j].name;
      assert all[i].Domain? && all[i].name == all[j].name;
    }
  }

  lemma RefusedLast(items: seq<Item>, item: Item)
    ensures Refused(items + [item], |items|) <==> item.Invalid? || item.name in Domains(items)
  {
    var all := items + [item];
    assert forall i :: 0 <= i < |items| ==> all[i] == items[i];
    if item.Domain? {
      DomainsNames(items, item.name);
      hide Domains;
      if Refused(all, |items|) {
        var i :| 0 <= i < |items| && all[i].Domain? && all[i].name == item.name;
        assert items[i].Domain? && items[i].name == item.name;
      }
      if item.name in Domains(items) {
        var i :| 0 <= i < |items| && items[i].Domain? && items[i].name == item.name;
        assert all[i].Domain? && all[i].name == item.name;
      }
    }
  }

  lemma AcceptedSnoc(items: seq<Item>, item: Item)
    ensures Accepted(items + [item]) <==> Accepted(items) && item.Domain? && item.name !in Domains(items)
    ensures item.Domain? ==> Domains(items + [item]) == Domains(items)[item.name := item.host]
  {
    var all := items + [item];
    assert all[..|items|] == items;
    RefusedLast(items, item);
    forall j: nat | j < |items| ensures Refused(all, j) <==> Refused(items, j) { RefusedBefore(items, [item], j); }
    hide Refused;
    assert Domains(all) == if item.Invalid? then Domains(items) else Domains(items)[item.name := item.host];
    hide Domains;
    if Accepted(all) {
      assert !Refused(all, |items|);
      forall j: nat | j < |items| ensures !Refused(items, j) { assert !Refused(all, j); }
    }
  }

  lemma {:induction false} ItemsPrefix(configs: seq<Config>, lower: string -> string, k: nat)
    requires k <= |configs|
    ensures Items(configs[..k], lower) <= Items(configs, lower)
    decreases |configs|
  {
    if k < |configs| {
      var front := configs[..|configs| - 1];
      ItemsPrefix(front, lower, k);
      assert front[..k] == configs[..k];
    } else {
      assert configs[..k] == configs;
    }
  }

  // The domain that stands for every host with this suffix.
  function Wild(suffix: string): (d: string)
    ensures |d| == |suffix| + 1 && d[0] == '*' && d[1..] == suffix
  {
    STAR + suffix
  }

  /** The tables hold exactly these domains. */
  ghost predicate Represents(m: RouteMatcher, domains: map<string, VirtualHost>) {
    && ExactTable(m.virtualHosts, domains) && WildTable(m.wildcards, domains)
    && m.defaultVirtualHost == if STAR in domains then Some(domains[STAR]) else None
  }

  ghost predicate ExactTable(table: map<string, VirtualHost>, domains: map<string, VirtualHost>) {
    && (forall d :: d in table <==> d in domains && Exact(d))
    && (forall d :: d in table ==> table[d] == domains[d])
  }

  ghost predicate WildTable(wildcards: map<nat, map<string, VirtualHost>>, domains: map<string, VirtualHost>) {
    && (forall n, w :: n in wildcards && w in wildcards[n] ==> Wildcard(wildcards[n], n, w, domains))
    && (forall w :: w != "" && Wild(w) in domains ==> |w| in wildcards && w in wildcards[|w|])
    && (forall n :: n in wildcards ==> n > 0)
  }

  predicate Wildcard(table: map<string, VirtualHost>, n: nat, w: string, domains: map<string, VirtualHost>)
    requires w in table
  {
    |w| == n > 0 && Wild(w) in domains && table[w] == domains[Wild(w)]
  }

  function TableFor(wildcards: map<nat, map<string, VirtualHost>>, n: nat): map<string, VirtualHost> {
    if n in wildcards then wildcards[n] else map[]
  }

  lemma OtherWildcard(table: map<string, VirtualHost>, table': map<string, VirtualHost>, n: nat, x: string,
                      domains: map<string, VirtualHost>, w: string, host: VirtualHost)
    requires x in table && x in table' && table'[x] == table[x] && x != w && Wildcard(table, n, x, domains)
    ensures Wildcard(table', n, x, domains[Wild(w) := host])
  {
    assert Wild(x)[1..] != Wild(w)[1..];
    hide Wild;
  }

  lemma AddWild(wildcards: map<nat, map<string, VirtualHost>>, domains: map<string, VirtualHost>, w: string, host: VirtualHost)
    requires WildTable(wildcards, domains) && w != ""
    ensures var table := TableFor(wildcards, |w|);
            && (w in table <==> Wild(w) in domains)
            && WildTable(wildcards[|w| := table[w := host]], domains[Wild(w) := host])
  {
    hide Wild;
    var table := TableFor(wildcards, |w|);
    var after, domains' := wildcards[|w| := table[w := host]], domains[Wild(w) := host];
    forall n, x | n in after && x in after[n] ensures Wildcard(after[n], n, x, domains') {
      if x != w { OtherWildcard(wildcards[n], after[n], n, x, domains, w, host); }
    }
    forall x | x != "" && Wild(x) in domains' ensures |x| in after && x in after[|x|] {
      if x != w { assert Wild(x) in domains; }
    }
  }

  lemma WildKind(w: string, d: string)
    requires w != "" && (d == STAR || Exact(d))
    ensures Wild(w) != d
  {
  }

  // A domain of another kind does not concern the wildcard tables.
  lemma KeepWild(wildcards: map<nat, map<string, VirtualHost>>, domains: map<string, VirtualHost>, d: string, host: VirtualHost)
    requires WildTable(wildcards, domains) && (d == STAR || Exact(d))
    ensures WildTable(wildcards, domains[d := host])
  {
    hide Wild, Exact;
    var domains' := domains[d := host];
    forall x | x != "" && Wild(x) in domains' ensures |x| in wildcards && x in wildcards[|x|] {
      WildKind(x, d);
    }
    forall n, x | n in wildcards && x in wildcards[n] ensures Wildcard(wildcards[n], n, x, domains') {
      KeepWildcard(wildcards[n], n, x, domains, d, host);
    }
    hide Wildcard;
  }

  lemma KeepWildcard(table: map<string, VirtualHost>, n: nat, w: string, domains: map<string, VirtualHost>, d: string, host: VirtualHost)
    requires w in table && Wildcard(table, n, w, domains) && (d == STAR || Exact(d))
    ensures Wildcard(table, n, w, domains[d := host])
  {
    WildKind(w, d);
    hide Wild, Exact;
  }

  lemma AddExact(table: map<string, VirtualHost>, domains: map<string, VirtualHost>, d: string, host: VirtualHost)
    requires ExactTable(table, domains)
    ensures ExactTable(if Exact(d) then table[d := host] else table, domains[d := host])
  {
  }

  lemma AddToDefault(m: RouteMatcher, domains: map<string, VirtualHost>, host: VirtualHost)
    requires Represents(m, domains)
    ensures m.defaultVirtualHost == None <==> STAR !in domains
    ensures Represents(m.(defaultVirtualHost := Some(host)), domains[STAR := host])
  {
    AddExact(m.virtualHosts, domains, STAR, host);
    KeepWild(m.wildcards, domains, STAR, host);
    hide ExactTable, WildTable;
  }

  lemma AddToWildcards(m: RouteMatcher, domains: map<string, VirtualHost>, w: string, host: VirtualHost)
    requires Represents(m, domains) && w != ""
    ensures var table := TableFor(m.wildcards, |w|);
            && (w in table <==> Wild(w) in domains)
            && Represents(m.(wildcards := m.wildcards[|w| := table[w := host]]), domains[Wild(w) := host])
  {
    AddExact(m.virtualHosts, domains, Wild(w), host);
    AddWild(m.wildcards, domains, w, host);
    hide ExactTable, WildTable;
  }

  lemma AddToExact(m: RouteMatcher, domains: map<string, VirtualHost>, d: string, host: VirtualHost)
    requires Represents(m, domains) && Exact(d)
    ensures d in m.virtualHosts <==> d in domains
    ensures Represents(m.(virtualHosts := m.virtualHosts[d := host]), domains[d := host])
  {
    AddExact(m.virtualHosts, domains, d, host);
    KeepWild(m.wildcards, domains, d, host);
    hide WildTable;
  }

  /** One domain goes into the table it belongs to, unless it is there already. */
  method AddDomain(m: RouteMatcher, domain: string, host: VirtualHost, ghost domains: map<string, VirtualHost>)
    returns (r: Result)
    requires Represents(m, domains)
    ensures r.Ok? <==> domain !in domains
    ensures r.Ok? ==> Represents(r.matcher, domains[domain := host])
    ensures r.Err? ==> r.error == if domain == STAR then DuplicateDefault else DuplicateDomain(domain)
  {
    hide Represents;
    if domain == STAR {
      AddToDefault(m, domains, host);
      if m.defaultVirtualHost != None { return Err(DuplicateDefault); }
      r := Ok(m.(defaultVirtualHost := Some(host)));
    } else if |domain| > 1 && domain[0] == '*' {
      var wildcard := domain[1..];
      assert domain == Wild(wildcard);
      AddToWildcards(m, domains, wildcard, host);
      var table: map<string, VirtualHost> := map[];
      if |domain| - 1 in m.wildcards { table := m.wildcards[|domain| - 1]; }
      if wildcard in table { return Err(DuplicateDomain(domain)); }
      r := Ok(m.(wildcards := m.wildcards[|domain| - 1 := table[wildcard := host]]));
    } else {
      AddToExact(m, domains, domain, host);
      if domain in m.virtualHosts { return Err(DuplicateDomain(domain)); }
      r := Ok(m.(virtualHosts := m.virtualHosts[domain := host]));
    }
  }

  predicate Descending(xs: seq<nat>) {
    forall i, j :: 0 <= i < j < |xs| ==> xs[i] > xs[j]
  }

  method InsertLength(lengths: seq<nat>, n: nat) returns (r: seq<nat>)
    requires Descending(lengths) && n !in lengths
    ensures Descending(r) && forall x :: x in r <==> x == n || x in lengths
  {
    var k := 0;
    while k < |lengths| && lengths[k] > n
      invariant k <= |lengths| && forall i :: 0 <= i < k ==> lengths[i] > n
    {
      k := k + 1;
    }
    assert k < |lengths| ==> lengths[k] != n;
    r := lengths[..k] + [n] + lengths[k..];
    assert forall x :: x in r <==> x == n || x in lengths by {
      assert lengths == lengths[..k] + lengths[k..];
    }
  }

  // The keys of the wildcard table in any order, sorted in reverse.
  method SortedLengths(keys: set<nat>) returns (lengths: seq<nat>)
    ensures Descending(lengths) && forall n :: n in lengths <==> n in keys
  {
    lengths := [];
    var left := keys;
    while left != {}
      invariant left <= keys && Descending(lengths)
      invariant forall n :: n in lengths <==> n in keys && n !in left
      decreases left
    {
      var n :| n in left;
      left := left - {n};
      lengths := InsertLength(lengths, n);
    }
  }

  // The error the j-th item is refused with.
  function ErrorOf(item: Item): Error {
    if item.Invalid? then InvalidVirtualHost
    else if item.name == STAR then DuplicateDefault
    else DuplicateDomain(item.name)
  }

  // The first refused item, and only that one, is reported.
  ghost predicate Reports(items: seq<Item>, error: Error) {
    exists j :: 0 <= j < |items| && Refused(items, j) && Accepted(items[..j]) && error == ErrorOf(items[j])
  }

  lemma ReportLast(seen: seq<Item>, item: Item, items: seq<Item>)
    requires Accepted(seen) && (item.Invalid? || item.name in Domains(seen)) && seen + [item] <= items
    ensures Reports(items, ErrorOf(item)) && !Accepted(items)
  {
    RefusedLast(seen, item);
    var more := items[|seen| + 1..];
    RefusedBefore(seen + [item], more, |seen|);
    assert items == seen + [item] + more;
    assert items[..|seen|] == seen;
    hide Refused;
  }

  // The lengths are those of the wildcard table, longest first.
  ghost predicate LengthsOf(m: RouteMatcher) {
    Descending(m.lengths) && forall n :: n in m.lengths <==> n in m.wildcards
  }

  lemma LengthsDoNotMatter(m: RouteMatcher, lengths: seq<nat>, domains: map<string, VirtualHost>)
    requires Represents(m, domains)
    ensures Represents(m.(lengths := lengths), domains)
  {
    hide ExactTable, WildTable;
  }

  lemma Nothing()
    ensures Represents(RouteMatcher(map[], None, map[], []), Domains([])) && Accepted([])
  {
  }

  lemma ItemsStep(configs: seq<Config>, lower: string -> string, k: nat)
    requires k < |configs|
    ensures Items(configs[..k + 1], lower) == Items(configs[..k], lower) + ItemsOf(configs[k], lower)
    ensures Items(configs[..k], lower) + ItemsOf(configs[k], lower) <= Items(configs, lower)
  {
    assert configs[..k + 1][..k] == configs[..k];
    ItemsPrefix(configs, lower, k + 1);
  }

  // The inner loop, for one virtual host.
  method AddDomains(m0: RouteMatcher, c: Config, lower: string -> string, ghost seen: seq<Item>, ghost all: seq<Item>)
    returns (r: Result)
    requires c.valid && Accepted(seen) && Represents(m0, Domains(seen)) && seen + ItemsOf(c, lower) <= all
    ensures r.Ok? ==> Accepted(seen + ItemsOf(c, lower)) && Represents(r.matcher, Domains(seen + ItemsOf(c, lower)))
    ensures r.Err? ==> Reports(all, r.error) && !Accepted(all)
  {
    hide Represents, Accepted, Refused, Domains, Reports;
    ghost var items := ItemsOf(c, lower);
    var m := m0;
    ghost var so := seen;
    for i := 0 to |c.domains|
      invariant so == seen + items[..i] && Accepted(so) && Represents(m, Domains(so))
    {
      var domain := lower(c.domains[i]);
      ghost var item := Domain(domain, c.host);
      AcceptedSnoc(so, item);
      assert so + [item] == seen + items[..i + 1];
      r := AddDomain(m, domain, c.host, Domains(so));
      if r.Err? {
        ReportLast(so, item, all);
        return;
      }
      m := r.matcher;
      so := so + [item];
    }
    assert items[..|c.domains|] == items;
    r := Ok(m);
  }

  /** NewRouteMatcher: the configuration is accepted exactly when every virtual host is valid and no domain occurs twice
      after lowercasing; then the tables hold exactly its domains, and otherwise the first fault is reported. */
  method NewRouteMatcher(configs: seq<Config>, lower: string -> string) returns (r: Result)
    ensures r.Ok? <==> Accepted(Items(configs, lower))
    ensures r.Ok? ==> Represents(r.matcher, Domains(Items(configs, lower))) && LengthsOf(r.matcher)
    ensures r.Err? ==> Reports(Items(configs, lower), r.error)
  {
    hide Represents, Accepted, Refused, Domains, Reports;
    ghost var all := Items(configs, lower);
    var m := RouteMatcher(map[], None, map[], []);
    assert Represents(m, Domains([])) && Accepted([]) by { Nothing(); }
    for k := 0 to |configs|
      invariant Accepted(Items(configs[..k], lower)) && Represents(m, Domains(Items(configs[..k], lower)))
    {
      ghost var seen := Items(configs[..k], lower);
      ItemsStep(configs, lower, k);
      if !configs[k].valid {
        ReportLast(seen, Invalid, all);
        return Err(InvalidVirtualHost);
      }
      r := AddDomains(m, configs[k], lower, seen, all);
      if r.Err? { return; }
      m := r.matcher;
    }
    assert configs[..|configs|] == configs;
    var lengths := SortedLengths(m.wildcards.Keys);
    r := Ok(m.(lengths := lengths));
    LengthsDoNotMatter(m, lengths, Domains(all));
  }

  function Suffix(host: string, n: nat): string
    requires n <= |host|
  {
    host[|host| - n..]
  }

  // A wildcard stands for the last n characters of the host, and for at least one more before them.
  predicate Matches(domains: map<string, VirtualHost>, host: string, n: nat) {
    0 < n < |host| && Wild(Suffix(host, n)) in domains
  }

  function Default(domains: map<string, VirtualHost>): Option<VirtualHost> {
    if STAR in domains then Some(domains[STAR]) else None
  }

  /** The rule, over the domains alone: a lone default wins; otherwise an exact domain, the longest matching wildcard, the
      default. */
  ghost predicate Selects(domains: map<string, VirtualHost>, host: string, r: Option<VirtualHost>) {
    if STAR in domains && NoneExact(domains) then r == Some(domains[STAR])
    else if Exact(host) && host in domains then r == Some(domains[host])
    else if exists n :: Matches(domains, host, n) then
      exists n :: Matches(domains, host, n) && Longest(domains, host, n) && r == Some(domains[Wild(Suffix(host, n))])
    else r == Default(domains)
  }

  ghost predicate Longest(domains: map<string, VirtualHost>, host: string, n: nat) {
    forall k: nat :: Matches(domains, host, k) ==> k <= n
  }

  // There is exactly one such choice.
  lemma SelectsOne(domains: map<string, VirtualHost>, host: string, r: Option<VirtualHost>, r': Option<VirtualHost>)
    requires Selects(domains, host, r) && Selects(domains, host, r')
    ensures r == r'
  {
    hide Matches, Exact, Wild;
  }

  // One table: its entries are compared in any order.
  method FindInTable(table: map<string, VirtualHost>, suffix: string) returns (r: Option<VirtualHost>)
    ensures r == if suffix in table then Some(table[suffix]) else None
  {
    var left := table.Keys;
    while left != {}
      invariant left <= table.Keys && (suffix in table ==> suffix in left)
      decreases left
    {
      var domainKey :| domainKey in left;
      if domainKey == suffix { return Some(table[domainKey]); }
      left := left - {domainKey};
    }
    r := None;
  }

  lemma MatchIsListed(m: RouteMatcher, domains: map<string, VirtualHost>, host: string, n: nat)
    requires Represents(m, domains)
    ensures n in m.wildcards ==> n > 0
    ensures Matches(domains, host, n) <==> 0 < n < |host| && n in m.wildcards && Suffix(host, n) in m.wildcards[n]
    ensures Matches(domains, host, n) ==> m.wildcards[n][Suffix(host, n)] == domains[Wild(Suffix(host, n))]
  {
    hide Wild, ExactTable;
    if 0 < n < |host| && n in m.wildcards && Suffix(host, n) in m.wildcards[n] {
      assert Wildcard(m.wildcards[n], n, Suffix(host, n), domains);
    }
    if Matches(domains, host, n) {
      assert |Suffix(host, n)| == n;
      assert Wildcard(m.wildcards[n], n, Suffix(host, n), domains);
    }
  }

  /** findWildcardVirtualHost finds the longest match. */
  method FindWildcardVirtualHost(m: RouteMatcher, host: string, ghost domains: map<string, VirtualHost>)
    returns (r: Option<VirtualHost>)
    requires Represents(m, domains) && LengthsOf(m)
    ensures r == None ==> forall n :: !Matches(domains, host, n)
    ensures r != None ==>
              exists n :: Matches(domains, host, n) && Longest(domains, host, n) && r == Some(domains[Wild(Suffix(host, n))])
  {
    hide Represents, Wild, Matches;
    for i := 0 to |m.lengths|
      invariant forall k :: 0 <= k < i ==> !Matches(domains, host, m.lengths[k])
    {
      var n := m.lengths[i];
      MatchIsListed(m, domains, host, n);
      if n >= |host| { continue; }
      r := FindInTable(m.wildcards[n], host[|host| - n..]);
      if r != None {
        FirstIsLongest(m, domains, host, i);
        return;
      }
    }
    FirstIsLongest(m, domains, host, |m.lengths|);
    r := None;
  }

  // With longer suffixes tried first, a match is the longest, and with none left there is none.
  lemma FirstIsLongest(m: RouteMatcher, domains: map<string, VirtualHost>, host: string, i: nat)
    requires Represents(m, domains) && LengthsOf(m) && i <= |m.lengths|
    requires forall k :: 0 <= k < i ==> !Matches(domains, host, m.lengths[k])
    ensures i < |m.lengths| ==> Longest(domains, host, m.lengths[i])
    ensures i == |m.lengths| ==> forall n: nat :: !Matches(domains, host, n)
  {
    hide Represents, Wild, Matches;
    forall n: nat | Matches(domains, host, n) ensures i < |m.lengths| && n <= m.lengths[i] {
      MatchIsListed(m, domains, host, n);
      var k :| 0 <= k < |m.lengths| && m.lengths[k] == n;
    }
  }

  /** findVirtualHost, with the lowercased host header, or nothing for a request without one, follows the rule. */
  method FindVirtualHost(m: RouteMatcher, headers: map<string, string>, lower: string -> string,
                         ghost domains: map<string, VirtualHost>)
    returns (r: Option<VirtualHost>)
    requires Represents(m, domains) && LengthsOf(m)
    ensures Selects(domains, lower(if lower(HOST) in headers then headers[lower(HOST)] else ""), r)
  {
    hide Represents, Selects;
    TableFacts(m, domains);
    var host := lower(if lower(HOST) in headers then headers[lower(HOST)] else "");
    if |m.virtualHosts| == 0 && m.defaultVirtualHost != None {
      LoneDefault(domains, host);
      return m.defaultVirtualHost;
    }
    r := Lookup(m, host, domains);
  }

  lemma LoneDefault(domains: map<string, VirtualHost>, host: string)
    requires STAR in domains && NoneExact(domains)
    ensures Selects(domains, host, Default(domains))
  {
    hide Exact, Matches;
  }

  ghost predicate NoneExact(domains: map<string, VirtualHost>) {
    forall d :: d in domains ==> !Exact(d)
  }

  // What findVirtualHost does when the default does not stand alone.
  method Lookup(m: RouteMatcher, host: string, ghost domains: map<string, VirtualHost>) returns (r: Option<VirtualHost>)
    requires Represents(m, domains) && LengthsOf(m) && !(STAR in domains && NoneExact(domains))
    ensures Selects(domains, host, r)
  {
    hide Represents, Matches, Exact, Wild;
    TableFacts(m, domains);
    ExactFacts(m, domains, host);
    if host in m.virtualHosts { return Some(m.virtualHosts[host]); }
    if |m.wildcards| > 0 {
      r := FindWildcardVirtualHost(m, host, domains);
      if r != None { return; }
    } else {
      forall n: nat ensures !Matches(domains, host, n) { MatchIsListed(m, domains, host, n); }
    }
    r := m.defaultVirtualHost;
  }

  lemma ExactFacts(m: RouteMatcher, domains: map<string, VirtualHost>, host: string)
    requires Represents(m, domains)
    ensures host in m.virtualHosts <==> Exact(host) && host in domains
    ensures host in m.virtualHosts ==> m.virtualHosts[host] == domains[host]
  {
    hide WildTable, Exact;
  }

  lemma TableFacts(m: RouteMatcher, domains: map<string, VirtualHost>)
    requires Represents(m, domains)
    ensures |m.virtualHosts| == 0 <==> NoneExact(domains)
    ensures m.defaultVirtualHost == Default(domains)
  {
    hide WildTable, Exact;
    if |m.virtualHosts| > 0 {
      assert m.virtualHosts.Keys != {};
      var d :| d in m.virtualHosts;
      assert d in domains && Exact(d);
    }
  }

  lemma {:induction false} DomainsValue(items: seq<Item>, i: nat)
    requires Accepted(items) && i < |items|
    ensures items[i].Domain? && items[i].name in Domains(items) && Domains(items)[items[i].name] == items[i].host
    decreases |items|
  {
    var front, item := items[..|items| - 1], items[|items| - 1];
    assert items == front + [item];
    AcceptedSnoc(front, item);
    hide Accepted;
    if i < |front| { DomainsValue(front, i); }
  }

  // Some virtual host of the configuration lists this domain, up to lowercasing.
  ghost predicate Lists(configs: seq<Config>, lower: string -> string, d: string) {
    exists a, i :: 0 <= a < |configs| && 0 <= i < |configs[a].domains| && lower(configs[a].domains[i]) == d
  }

  lemma {:induction false} ItemListed(configs: seq<Config>, lower: string -> string, k: nat) returns (a: nat, i: nat)
    requires k < |Items(configs, lower)| && Items(configs, lower)[k].Domain?
    ensures a < |configs| && i < |configs[a].domains|
    ensures Items(configs, lower)[k] == Domain(lower(configs[a].domains[i]), configs[a].host)
    decreases |configs|
  {
    var last := |configs| - 1;
    var front := Items(configs[..last], lower);
    if k < |front| {
      a, i := ItemListed(configs[..last], lower, k);
    } else {
      a, i := last, k - |front|;
    }
  }

  lemma {:induction false} ListedItem(configs: seq<Config>, lower: string -> string, a: nat, i: nat) returns (k: nat)
    requires a < |configs| && i < |configs[a].domains| && configs[a].valid
    ensures k < |Items(configs, lower)| && Items(configs, lower)[k] == Domain(lower(configs[a].domains[i]), configs[a].host)
    decreases |configs|
  {
    var last := |configs| - 1;
    var front := Items(configs[..last], lower);
    if a < last {
      k := ListedItem(configs[..last], lower, a, i);
    } else {
      k := |front| + i;
    }
  }

  lemma {:induction false} AcceptedValid(configs: seq<Config>, lower: string -> string, a: nat)
    requires a < |configs| && !configs[a].valid
    ensures Invalid in Items(configs, lower)
    decreases |configs|
  {
    if a < |configs| - 1 { AcceptedValid(configs[..|configs| - 1], lower, a); }
  }

  // The domains of an accepted configuration are the ones listed, each with the virtual host that lists it.
  lemma DomainsListed(configs: seq<Config>, lower: string -> string)
    requires Accepted(Items(configs, lower))
    ensures forall d :: d in Domains(Items(configs, lower)) <==> Lists(configs, lower, d)
    ensures forall a, i :: 0 <= a < |configs| && 0 <= i < |configs[a].domains| ==>
              && lower(configs[a].domains[i]) in Domains(Items(configs, lower))
              && Domains(Items(configs, lower))[lower(configs[a].domains[i])] == configs[a].host
  {
    var items := Items(configs, lower);
    forall j | 0 <= j < |items| ensures items[j].Domain? { assert !Refused(items, j); }
    hide Items, Domains, Refused;
    forall a, i | 0 <= a < |configs| && 0 <= i < |configs[a].domains|
      ensures lower(configs[a].domains[i]) in Domains(items) && Domains(items)[lower(configs[a].domains[i])] == configs[a].host
    {
      if !configs[a].valid { AcceptedValid(configs, lower, a); }
      var k := ListedItem(configs, lower, a, i);
      DomainsValue(items, k);
    }
    hide Accepted;
    forall d | d in Domains(items) ensures Lists(configs, lower, d) {
      DomainsNames(items, d);
      var k :| 0 <= k < |items| && items[k].Domain? && items[k].name == d;
      var a, i := ItemListed(configs, lower, k);
    }
  }

  /** From the configuration to the choice, without the tables: a request whose host is a listed domain without a star gets
      the virtual host that lists it, and every other request the one the rule selects. */
  method Serve(configs: seq<Config>, headers: map<string, string>, lower: string -> string)
    returns (built: Result, r: Option<VirtualHost>)
    ensures built.Ok? <==> Accepted(Items(configs, lower))
    ensures built.Ok? ==> Selects(Domains(Items(configs, lower)), lower(if lower("host") in headers then headers[lower("host")] else ""), r)
    ensures built.Ok? ==> forall a, i :: 0 <= a < |configs| && 0 <= i < |configs[a].domains| ==>
              var host := lower(if lower("host") in headers then headers[lower("host")] else "");
              lower(configs[a].domains[i]) == host && (host == "" || host[0] != '*') ==> r == Some(configs[a].host)
  {
    hide Accepted, Represents, Items, Domains, Selects, Lists;
    built := NewRouteMatcher(configs, lower);
    r := None;
    if built.Ok? {
      r := FindVirtualHost(built.matcher, headers, lower, Domains(Items(configs, lower)));
      ghost var host := lower(if lower(HOST) in headers then headers[lower(HOST)] else "");
      forall a, i | 0 <= a < |configs| && 0 <= i < |configs[a].domains|
        ensures lower(configs[a].domains[i]) == host && (host == "" || host[0] != '*') ==> r == Some(configs[a].host)
      {
        if lower(configs[a].domains[i]) == host && (host == "" || host[0] != '*') { ListedIsServed(configs, lower, host, a, i, r); }
      }
    }
  }

  // What the rule means for a virtual host and one of the domains it lists.  It gets the requests for that domain.
  lemma ListedIsServed(configs: seq<Config>, lower: string -> string, host: string, a: nat, i: nat, r: Option<VirtualHost>)
    requires Accepted(Items(configs, lower)) && Selects(Domains(Items(configs, lower)), host, r)
    requires a < |configs| && i < |configs[a].domains| && lower(configs[a].domains[i]) == host && (host == "" || host[0] != '*')
    ensures r == Some(configs[a].host)
  {
    DomainsListed(configs, lower);
    hide Accepted, Items, Domains, Lists;
    assert Exact(host);
  }

  /** Behind a star it gets the requests for hosts that end so, unless the host is listed itself, a longer suffix is, or the
      star alone is and no domain without one. */
  lemma SuffixIsServed(configs: seq<Config>, lower: string -> string, host: string, a: nat, i: nat, r: Option<VirtualHost>)
    requires Accepted(Items(configs, lower)) && Selects(Domains(Items(configs, lower)), host, r)
    requires a < |configs| && i < |configs[a].domains|
    requires var d := lower(configs[a].domains[i]);
             && 1 < |d| <= |host| && d[0] == '*' && host[|host| - |d| + 1..] == d[1..]
             && forall p :: 0 < p <= |host| - |d| ==> !Lists(configs, lower, "*" + host[p..])
    requires !((host == "" || host[0] != '*') && Lists(configs, lower, host)) && !LoneStar(configs, lower)
    ensures r == Some(configs[a].host)
  {
    DomainsListed(configs, lower);
    var domains, d := Domains(Items(configs, lower)), lower(configs[a].domains[i]);
    hide Accepted, Items, Domains, Lists, Selects;
    assert !(NoneExact(domains) && STAR in domains) && !(Exact(host) && host in domains);
    forall p | 0 < p <= |host| - |d| ensures "*" + host[p..] !in domains {}
    LongestSelected(domains, host, d, r);
  }

  lemma LongestSelected(domains: map<string, VirtualHost>, host: string, d: string, r: Option<VirtualHost>)
    requires Selects(domains, host, r) && d in domains && 1 < |d| <= |host| && d[0] == '*' && host[|host| - |d| + 1..] == d[1..]
    requires forall p :: 0 < p <= |host| - |d| ==> "*" + host[p..] !in domains
    requires !(NoneExact(domains) && STAR in domains) && !(Exact(host) && host in domains)
    ensures r == Some(domains[d])
  {
    assert Wild(Suffix(host, |d| - 1)) == d;
    hide NoneExact, Exact;
    assert Matches(domains, host, |d| - 1);
    forall n: nat | Matches(domains, host, n) ensures n <= |d| - 1 {
      assert Wild(Suffix(host, n)) == "*" + host[|host| - n..];
    }
    hide Matches, Wild;
  }

  // The star gets what is left, and everything when there is no domain without one; without the star that is nothing.
  lemma StarIsServed(configs: seq<Config>, lower: string -> string, host: string, r: Option<VirtualHost>)
    requires Accepted(Items(configs, lower)) && Selects(Domains(Items(configs, lower)), host, r)
    requires LoneStar(configs, lower) || (forall p :: 0 < p < |host| ==> !Lists(configs, lower, "*" + host[p..]))
    requires LoneStar(configs, lower) || !((host == "" || host[0] != '*') && Lists(configs, lower, host))
    ensures r == None <==> !Lists(configs, lower, "*")
    ensures forall a, i :: 0 <= a < |configs| && 0 <= i < |configs[a].domains| && lower(configs[a].domains[i]) == "*" ==> r == Some(configs[a].host)
  {
    DomainsListed(configs, lower);
    var domains := Domains(Items(configs, lower));
    hide Accepted, Items, Domains;
    assert NoneExact(domains) && STAR in domains <==> LoneStar(configs, lower);
    if !LoneStar(configs, lower) {
      forall n: nat ensures !Matches(domains, host, n) {
        if 0 < n < |host| { assert Wild(Suffix(host, n)) == "*" + host[|host| - n..]; }
      }
    }
  }

  // The star is listed, and nothing without one.
  ghost predicate LoneStar(configs: seq<Config>, lower: string -> string) {
    Lists(configs, lower, "*") && forall d :: Lists(configs, lower, d) ==> d != "" && d[0] == '*'
  }

  /** The order of the configuration does not matter: the same virtual hosts in another order are accepted exactly when
      these are, and as the same domains, so every request gets the same virtual host. */
  lemma OrderDoesNotMatter(configs: seq<Config>, configs': seq<Config>, lower: string -> string)
    requires multiset(configs) == multiset(configs')
    ensures Accepted(Items(configs, lower)) <==> Accepted(Items(configs', lower))
    ensures Accepted(Items(configs, lower)) ==> Domains(Items(configs, lower)) == Domains(Items(configs', lower))
  {
    hide Domains, Accepted;
    var items, items' := Items(configs, lower), Items(configs', lower);
    ItemsPermuted(configs, configs', lower);
    AcceptedPermuted(items, items');
    if Accepted(items) {
      SameDomains(items, items');
      SameDomains(items', items);
    }
  }

  lemma {:induction false} ItemsPermuted(configs: seq<Config>, configs': seq<Config>, lower: string -> string)
    requires multiset(configs) == multiset(configs')
    ensures multiset(Items(configs, lower)) == multiset(Items(configs', lower))
    decreases |configs|
  {
    hide ItemsOf;
    if configs == [] {
      assert |multiset(configs')| == 0;
    } else {
      var front, c := configs[..|configs| - 1], configs[|configs| - 1];
      assert configs == front + [c];
      var k := TakeOut(front, c, configs');
      ItemsPermuted(front, configs'[..k] + configs'[k + 1..], lower);
      ItemsWithout(configs', k, lower);
    }
  }

  // The place of an element in a permutation, without which the rest are permutations of each other.
  lemma TakeOut<T>(front: seq<T>, x: T, ys: seq<T>) returns (k: nat)
    requires multiset(front + [x]) == multiset(ys)
    ensures k < |ys| && ys[k] == x && multiset(ys[..k] + ys[k + 1..]) == multiset(front)
  {
    assert multiset(front + [x]) == multiset(front) + multiset{x};
    assert x in multiset(ys);
    k :| 0 <= k < |ys| && ys[k] == x;
    var a, b := ys[..k], ys[k + 1..];
    assert ys == a + [x] + b;
    assert multiset(ys) == multiset(a) + multiset{x} + multiset(b);
    assert multiset(a + b) == multiset(ys) - multiset{x};
    assert multiset(front) == multiset(front + [x]) - multiset{x};
  }

  lemma {:induction false} ItemsWithout(configs: seq<Config>, k: nat, lower: string -> string)
    requires k < |configs|
    ensures multiset(Items(configs, lower)) == multiset(Items(configs[..k] + configs[k + 1..], lower)) + multiset(ItemsOf(configs[k], lower))
    decreases |configs|
  {
    hide ItemsOf;
    var last := |configs| - 1;
    var front, rest := configs[..last], configs[..k] + configs[k + 1..];
    if k == last {
      assert rest == front;
    } else {
      assert rest[..|rest| - 1] == front[..k] + front[k + 1..] && rest[|rest| - 1] == configs[last];
      ItemsWithout(front, k, lower);
    }
  }

  // Acceptance depends only on how often each item occurs.
  ghost predicate NoneTwice(items: seq<Item>) {
    && Distinct(items) && (forall x :: x in items ==> x.Domain?)
    && forall x, y :: x in items && y in items && x.name == y.name ==> x == y
  }

  lemma AcceptedNoneTwice(items: seq<Item>)
    ensures Accepted(items) <==> NoneTwice(items)
  {
    if Accepted(items) {
      forall i | 0 <= i < |items| ensures items[i].Domain? { assert !Refused(items, i); }
      forall i, j | 0 <= i < j < |items| ensures items[i].name != items[j].name { assert !Refused(items, j); }
    }
    if NoneTwice(items) {
      forall j | 0 <= j < |items| ensures !Refused(items, j) {
        assert items[j] in items;
        forall i | 0 <= i < j && items[i].Domain? ensures items[i].name != items[j].name { assert items[i] in items; }
      }
    }
  }

  lemma AcceptedPermuted(items: seq<Item>, items': seq<Item>)
    requires multiset(items) == multiset(items')
    ensures Accepted(items) <==> Accepted(items')
    ensures forall x :: x in items <==> x in items'
  {
    AcceptedNoneTwice(items);
    AcceptedNoneTwice(items');
    hide Accepted;
    forall x ensures x in items <==> x in items' { assert x in multiset(items) <==> x in multiset(items'); }
    if Distinct(items) { PermutationDistinct(items, items'); }
    if Distinct(items') { PermutationDistinct(items', items); }
  }

  lemma SameDomains(items: seq<Item>, items': seq<Item>)
    requires Accepted(items) && Accepted(items') && forall x :: x in items ==> x in items'
    ensures forall d :: d in Domains(items) ==> d in Domains(items') && Domains(items')[d] == Domains(items)[d]
  {
    forall d | d in Domains(items) ensures d in Domains(items') && Domains(items')[d] == Domains(items)[d] {
      DomainsNames(items, d);
      var i :| 0 <= i < |items| && items[i].Domain? && items[i].name == d;
      DomainsValue(items, i);
      assert items[i] in items';
      var j :| 0 <= j < |items'| && items'[j] == items[i];
      DomainsValue(items', j);
    }
  }
}
