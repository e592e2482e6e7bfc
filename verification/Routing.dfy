/**
 The endpoint index of routing.go and the plain scan in file order that it must agree with.
 */
module Routing {
  import opened Addresses
  import opened Config
  import opened Scanning
  import opened Sorting
  import opened Text

  // ---- The reference: first match over the endpoints in file order ----

  predicate TransportMatches(e: Endpoint, transport: string) {
    var want := NormalizeTransport(e.transport);
    want == "" || (transport != "" && transport == want)
  }

  /** A listed value covers a source: the same address, or the same leading bits as written. */
  ghost predicate Covers(v: MatchValue, ip: IpAddr) {
    match v
    case Exact(a) => Unmap(a) == ip
    case Cidr(p) => SharesLeadingBits(p, ip)
    case Malformed(_) => false
  }

  ghost function Covering(ip: IpAddr): MatchValue -> bool { (v: MatchValue) => Covers(v, ip) }

  ghost function Speaks(t: string): Endpoint -> bool { (e: Endpoint) => TransportMatches(e, t) }

  ghost function IsUser(user: string): Endpoint -> bool { (e: Endpoint) => e.matchType == User && e.name == user }

  ghost function IsType(kind: MatchType): Endpoint -> bool { (e: Endpoint) => e.matchType == kind }

  ghost function Both(p: Endpoint -> bool, q: Endpoint -> bool): Endpoint -> bool { (e: Endpoint) => p(e) && q(e) }

  ghost function Lists(covers: MatchValue -> bool): Endpoint -> bool {
    (e: Endpoint) => e.matchType == Ip && exists v :: v in e.values && covers(v)
  }

  ghost function Scan(es: seq<Endpoint>, req: Request): Option<Endpoint> {
    var t := NormalizeTransport(req.transport);
    var user := First(Both(IsUser(req.fromUser), Speaks(t)), es);
    if user.Some? || req.source.None? then user
    else
      var ip := First(Both(Lists(Covering(Unmap(req.source.value))), Speaks(t)), es);
      if ip.Some? then ip
      else
        var dynamic := First(IsType(UserDynamic), es);
        if dynamic.Some? && req.fromUser != "" && TransportMatches(dynamic.value, t) then dynamic
        else
          var default := First(IsType(Unset), es);
          if default.Some? && TransportMatches(default.value, t) then default else None
  }

  lemma ScanFindsMembers(es: seq<Endpoint>, req: Request)
    ensures Scan(es, req).Some? ==> Scan(es, req).value in es
  {
    var t := NormalizeTransport(req.transport);
    FirstIsMember(Both(IsUser(req.fromUser), Speaks(t)), es);
    if req.source.Some? {
      FirstIsMember(Both(Lists(Covering(Unmap(req.source.value))), Speaks(t)), es);
    }
    FirstIsMember(IsType(UserDynamic), es);
    FirstIsMember(IsType(Unset), es);
  }

  // ---- The order of the endpoints ----

  function Known(endpoints: map<string, Endpoint>, order: seq<string>): (r: seq<string>)
    ensures forall k :: k in r <==> k in order && k in endpoints
    ensures NoDuplicates(order) ==> NoDuplicates(r)
  {
    if order == [] then []
    else
      var last := |order| - 1;
      assert order == order[..last] + [order[last]];
      var front := Known(endpoints, order[..last]);
      if order[last] in endpoints then front + [order[last]] else front
  }

  ghost function SomeListing<T(!new)>(s: set<T>): (r: seq<T>)
    ensures forall x :: x in r <==> x in s
    ensures NoDuplicates(r)
  {
    if s == {} then [] else var x :| x in s; SomeListing(s - {x}) + [x]
  }

  ghost function Unlisted(endpoints: map<string, Endpoint>, order: seq<string>): set<string> {
    set k | k in endpoints && k !in order
  }

  /** File-ordered names first, then the remaining keys sorted. */
  ghost function Names(endpoints: map<string, Endpoint>, order: seq<string>): (r: seq<string>)
    ensures forall k :: k in r <==> k in endpoints
  {
    var rest := SomeListing(Unlisted(endpoints, order));
    SortStringsIsStrict(rest);
    Known(endpoints, order) + StableSort(StringLess, rest)
  }

  /** When the file order repeats no name, every endpoint is listed exactly once and the tail is sorted. */
  lemma NamesListEachOnce(endpoints: map<string, Endpoint>, order: seq<string>)
    requires NoDuplicates(order)
    ensures NoDuplicates(Names(endpoints, order))
    ensures forall k :: k in Names(endpoints, order) <==> k in endpoints
    ensures exists tail :: Names(endpoints, order) == Known(endpoints, order) + tail && StrictlySorted(StringLess, tail)
  {
    var rest := SomeListing(Unlisted(endpoints, order));
    SortStringsIsStrict(rest);
    DistinctConcat(Known(endpoints, order), StableSort(StringLess, rest));
  }

  /** `a` comes earlier in the file than `b`, or only `a` is in the file, or neither is and `a` sorts first. */
  ghost predicate StandsBefore(order: seq<string>, a: string, b: string) {
    if a in order && b in order then exists i, j :: 0 <= i < j < |order| && order[i] == a && order[j] == b
    else if a in order || b in order then a in order
    else StringLess(a, b)
  }

  lemma {:induction false} KnownInOrder(endpoints: map<string, Endpoint>, order: seq<string>, p: nat, q: nat)
    requires p < q < |Known(endpoints, order)|
    ensures var known := Known(endpoints, order);
            exists i, j :: 0 <= i < j < |order| && order[i] == known[p] && order[j] == known[q]
  {
    var known, last := Known(endpoints, order), |order| - 1;
    var front := Known(endpoints, order[..last]);
    if q < |front| {
      KnownInOrder(endpoints, order[..last], p, q);
      var i, j :| 0 <= i < j < last && order[..last][i] == front[p] && order[..last][j] == front[q];
      assert order[i] == known[p] && order[j] == known[q];
    } else {
      assert known[p] == front[p] && front[p] in front;
      var i :| 0 <= i < last && order[..last][i] == known[p];
      assert order[i] == known[p] && order[last] == known[q];
    }
  }

  /** The names stand in the order of the file, with those it does not mention behind them and sorted. */
  lemma NamesStandInOrder(endpoints: map<string, Endpoint>, order: seq<string>, p: nat, q: nat)
    requires p < q < |Names(endpoints, order)|
    ensures StandsBefore(order, Names(endpoints, order)[p], Names(endpoints, order)[q])
  {
    var known, rest := Known(endpoints, order), SomeListing(Unlisted(endpoints, order));
    var tail := StableSort(StringLess, rest);
    SortStringsIsStrict(rest);
    assert Names(endpoints, order) == known + tail;
    if q < |known| {
      KnownInOrder(endpoints, order, p, q);
      assert known[p] in known && known[q] in known;
    } else {
      assert tail[q - |known|] in tail;
      if p < |known| {
        assert known[p] in known;
      } else {
        assert tail[p - |known|] in tail;
      }
    }
  }

  /** The keys that the file order does not name, collected in Go's arbitrary map order. */
  method CollectUnlisted(endpoints: map<string, Endpoint>, added: set<string>) returns (extra: seq<string>)
    ensures NoDuplicates(extra)
    ensures forall k :: k in extra <==> k in endpoints && k !in added
  {
    extra := [];
    var rest := endpoints.Keys;
    while rest != {}
      invariant rest <= endpoints.Keys
      invariant forall k :: k in extra <==> k in endpoints.Keys - rest && k !in added
      invariant NoDuplicates(extra)
      decreases rest
    {
      var name :| name in rest;
      rest := rest - {name};
      if name !in added {
        extra := extra + [name];
      }
    }
  }

  /** The result is the same for every map iteration order. */
  method EndpointNames(endpoints: map<string, Endpoint>, order: seq<string>) returns (names: seq<string>)
    ensures names == Names(endpoints, order)
    ensures forall k :: k in names <==> k in endpoints
    ensures forall p, q :: 0 <= p < q < |names| ==> StandsBefore(order, names[p], names[q])
  {
    names := [];
    var added: set<string> := {};
    for i := 0 to |order|
      invariant names == Known(endpoints, order[..i])
      invariant forall k :: k in added <==> k in order[..i] && k in endpoints
    {
      assert order[..i + 1][..i] == order[..i];
      if order[i] in endpoints {
        names := names + [order[i]];
        added := added + {order[i]};
      }
    }
    assert order[..|order|] == order;
    var extra := CollectUnlisted(endpoints, added);
    SortStringsForgetsOrder(extra, SomeListing(Unlisted(endpoints, order)));
    names := names + StableSort(StringLess, extra);
    forall p, q | 0 <= p < q < |names| ensures StandsBefore(order, names[p], names[q]) {
      NamesStandInOrder(endpoints, order, p, q);
    }
  }

  function Pick(endpoints: map<string, Endpoint>, names: seq<string>): (es: seq<Endpoint>)
    requires forall k :: k in names ==> k in endpoints
    ensures |es| == |names|
    ensures forall i :: 0 <= i < |es| ==> es[i] == endpoints[names[i]]
  {
    seq(|names|, i requires 0 <= i < |names| => endpoints[names[i]])
  }

  ghost function FileOrder(endpoints: map<string, Endpoint>, order: seq<string>): seq<Endpoint> {
    Pick(endpoints, Names(endpoints, order))
  }

  lemma FileOrderHoldsTheEndpoints(endpoints: map<string, Endpoint>, order: seq<string>)
    ensures forall e :: e in FileOrder(endpoints, order) <==> e in endpoints.Values
  {
    var names, es := Names(endpoints, order), FileOrder(endpoints, order);
    forall e ensures e in es <==> e in endpoints.Values {
      if e in es {
        var i :| 0 <= i < |es| && es[i] == e;
        assert names[i] in endpoints;
      }
      if e in endpoints.Values {
        var k :| k in endpoints && endpoints[k] == e;
        assert k in names;
        var i :| 0 <= i < |names| && names[i] == k;
        assert es[i] == e;
      }
    }
  }

  // ---- The index ----

  datatype Entry = Entry(order: nat, endpoint: Endpoint)
  datatype CidrEntry = CidrEntry(order: nat, prefix: IpPrefix, endpoint: Endpoint)

  datatype Index = Index(
    users: map<string, seq<Endpoint>>, exactIPs: map<IpAddr, seq<Entry>>, cidrs: seq<CidrEntry>,
    dynamicUser: Option<Endpoint>, defaultEnd: Option<Endpoint>)

  function Get<K, V>(m: map<K, seq<V>>, k: K): seq<V> { if k in m then m[k] else [] }

  /** A value of an "ip" endpoint; its place in the list of all of them is its running number. */
  datatype Listing = Listing(value: MatchValue, endpoint: Endpoint)

  function Own(e: Endpoint): (r: seq<Listing>) {
    if e.matchType == Ip then seq(|e.values|, i requires 0 <= i < |e.values| => Listing(e.values[i], e)) else []
  }

  function Listings(es: seq<Endpoint>): seq<Listing> {
    if es == [] then []
    else if es[|es| - 1].matchType == Ip then Listings(es[..|es| - 1]) + Own(es[|es| - 1])
    else Listings(es[..|es| - 1])
  }

  ghost predicate WellFormed(ls: seq<Listing>) {
    forall i :: 0 <= i < |ls| ==> !ls[i].value.Malformed?
  }

  /** The listings whose value passes a test, numbered by their place. */
  ghost function Select(p: MatchValue -> bool, ls: seq<Listing>): seq<Entry> {
    if ls == [] then []
    else
      var n := |ls| - 1;
      if p(ls[n].value) then Select(p, ls[..n]) + [Entry(n, ls[n].endpoint)] else Select(p, ls[..n])
  }

  ghost function CoveringExactly(ip: IpAddr): MatchValue -> bool {
    (v: MatchValue) => v.Exact? && Unmap(v.addr) == ip
  }

  ghost function CoveringAsPrefix(ip: IpAddr): MatchValue -> bool {
    (v: MatchValue) => v.Cidr? && SharesLeadingBits(v.prefix, ip)
  }

  ghost function CidrsOf(ls: seq<Listing>): seq<CidrEntry> {
    if ls == [] then []
    else
      var n := |ls| - 1;
      var front := CidrsOf(ls[..n]);
      if ls[n].value.Cidr? then front + [CidrEntry(n, Masked(ls[n].value.prefix), ls[n].endpoint)] else front
  }

  ghost predicate IpPartOf(ls: seq<Listing>, exactIPs: map<IpAddr, seq<Entry>>, cidrs: seq<CidrEntry>) {
    && (forall ip :: Get(exactIPs, ip) == Select(CoveringExactly(ip), ls))
    && cidrs == CidrsOf(ls)
  }

  ghost predicate UserPartOf(es: seq<Endpoint>, users: map<string, seq<Endpoint>>) {
    forall user :: Get(users, user) == Filter(IsUser(user), es)
  }

  ghost predicate IndexOf(es: seq<Endpoint>, idx: Index) {
    && UserPartOf(es, idx.users)
    && IpPartOf(Listings(es), idx.exactIPs, idx.cidrs)
    && idx.dynamicUser == First(IsType(UserDynamic), es)
    && idx.defaultEnd == First(IsType(Unset), es)
  }

  lemma {:induction false} ListingsOfPrefix(es: seq<Endpoint>, i: nat)
    requires i < |es| && es[i].matchType == Ip
    ensures Listings(es[..i]) + Own(es[i]) <= Listings(es)
    decreases |es|
  {
    if i < |es| - 1 {
      ListingsOfPrefix(es[..|es| - 1], i);
      assert es[..|es| - 1][..i] == es[..i];
    }
  }

  lemma SelectSnoc(p: MatchValue -> bool, ls: seq<Listing>, l: Listing)
    ensures Select(p, ls + [l]) == if p(l.value) then Select(p, ls) + [Entry(|ls|, l.endpoint)] else Select(p, ls)
  {
    assert (ls + [l])[..|ls|] == ls;
  }

  method AddValue(
    exactIPs: map<IpAddr, seq<Entry>>, cidrs: seq<CidrEntry>, e: Endpoint, v: MatchValue, valueOrder: nat,
    ghost ls: seq<Listing>)
    returns (exactIPs': map<IpAddr, seq<Entry>>, cidrs': seq<CidrEntry>)
    requires IpPartOf(ls, exactIPs, cidrs) && valueOrder == |ls| && !v.Malformed?
    ensures IpPartOf(ls + [Listing(v, e)], exactIPs', cidrs')
  {
    ghost var ls' := ls + [Listing(v, e)];
    assert ls'[..|ls|] == ls;
    exactIPs', cidrs' := exactIPs, cidrs;
    match v {
      case Exact(a) =>
        var ip := Unmap(a);
        exactIPs' := exactIPs[ip := Get(exactIPs, ip) + [Entry(valueOrder, e)]];
      case Cidr(p) =>
        cidrs' := cidrs + [CidrEntry(valueOrder, Masked(p), e)];
    }
    forall ip ensures Get(exactIPs', ip) == Select(CoveringExactly(ip), ls') {
      assert Get(exactIPs, ip) == Select(CoveringExactly(ip), ls);
      SelectSnoc(CoveringExactly(ip), ls, Listing(v, e));
    }
  }

  datatype BadValue = BadValue(endpoint: string, text: string)

  ghost predicate IsBad(l: Listing, bad: BadValue) {
    l.value == Malformed(bad.text) && l.endpoint.name == bad.endpoint
  }

  /** The error names the first malformed value in file order. */
  ghost predicate FirstMalformed(ls: seq<Listing>, bad: BadValue) {
    exists k :: 0 <= k < |ls| && IsBad(ls[k], bad) && WellFormed(ls[..k])
  }

  datatype IpPart = IpPart(exactIPs: map<IpAddr, seq<Entry>>, cidrs: seq<CidrEntry>, valueOrder: nat)

  method AddValues(part: IpPart, e: Endpoint, ghost ls: seq<Listing>) returns (r: Result<IpPart, BadValue>)
    requires e.matchType == Ip
    requires IpPartOf(ls, part.exactIPs, part.cidrs) && part.valueOrder == |ls| && WellFormed(ls)
    ensures r.Success? ==> WellFormed(ls + Own(e)) && r.value.valueOrder == |ls| + |Own(e)|
    ensures r.Success? ==> IpPartOf(ls + Own(e), r.value.exactIPs, r.value.cidrs)
    ensures r.Failure? ==> FirstMalformed(ls + Own(e), r.error)
  {
    var exact, cidrs, n := part.exactIPs, part.cidrs, part.valueOrder;
    ghost var seen := ls;
    for j := 0 to |e.values|
      invariant seen == ls + Own(e)[..j]
      invariant IpPartOf(seen, exact, cidrs)
      invariant n == |seen|
      invariant WellFormed(seen)
    {
      var v := e.values[j];
      assert Own(e)[..j] + [Listing(v, e)] == Own(e)[..j + 1];
      if v.Malformed? {
        MalformedNext(seen, e, j, ls);
        return Failure(BadValue(e.name, v.text));
      }
      exact, cidrs := AddValue(exact, cidrs, e, v, n, seen);
      n := n + 1;
      seen := seen + [Listing(v, e)];
    }
    assert Own(e)[..|e.values|] == Own(e);
    return Success(IpPart(exact, cidrs, n));
  }

  lemma MalformedNext(seen: seq<Listing>, e: Endpoint, j: nat, ls: seq<Listing>)
    requires e.matchType == Ip && j < |e.values| && e.values[j].Malformed?
    requires seen == ls + Own(e)[..j] && WellFormed(seen)
    ensures FirstMalformed(ls + Own(e), BadValue(e.name, e.values[j].text))
  {
    var all := ls + Own(e);
    assert all[..|seen|] == seen;
    assert IsBad(all[|seen|], BadValue(e.name, e.values[j].text));
  }

  lemma MalformedInPrefix(es: seq<Endpoint>, i: nat, bad: BadValue)
    requires i < |es| && es[i].matchType == Ip && FirstMalformed(Listings(es[..i]) + Own(es[i]), bad)
    ensures FirstMalformed(Listings(es), bad) && !WellFormed(Listings(es))
  {
    var ls, all := Listings(es[..i]) + Own(es[i]), Listings(es);
    ListingsOfPrefix(es, i);
    var k :| 0 <= k < |ls| && IsBad(ls[k], bad) && WellFormed(ls[..k]);
    assert all[k] == ls[k] && all[..k] == ls[..k];
  }

  lemma UsersGrow(es: seq<Endpoint>, e: Endpoint, users: map<string, seq<Endpoint>>)
    requires UserPartOf(es, users)
    ensures UserPartOf(es + [e], if e.matchType == User then users[e.name := Get(users, e.name) + [e]] else users)
  {
    assert (es + [e])[..|es|] == es;
    var users' := if e.matchType == User then users[e.name := Get(users, e.name) + [e]] else users;
    forall user ensures Get(users', user) == Filter(IsUser(user), es + [e]) {
      assert Get(users, user) == Filter(IsUser(user), es);
    }
  }

  method AddEndpoint(idx: Index, valueOrder: nat, e: Endpoint, ghost es: seq<Endpoint>)
    returns (r: Result<(Index, nat), BadValue>)
    requires IndexOf(es, idx) && valueOrder == |Listings(es)| && WellFormed(Listings(es))
    ensures r.Success? ==> IndexOf(es + [e], r.value.0) && r.value.1 == |Listings(es + [e])|
    ensures r.Success? ==> WellFormed(Listings(es + [e]))
    ensures r.Failure? ==> e.matchType == Ip && FirstMalformed(Listings(es) + Own(e), r.error)
  {
    assert (es + [e])[..|es|] == es;
    UsersGrow(es, e, idx.users);
    FirstOfSnoc(IsType(UserDynamic), es, e);
    FirstOfSnoc(IsType(Unset), es, e);
    var idx', order' := idx, valueOrder;
    match e.matchType {
      case User =>
        idx' := idx.(users := idx.users[e.name := Get(idx.users, e.name) + [e]]);
      case Ip =>
        var part := AddValues(IpPart(idx.exactIPs, idx.cidrs, valueOrder), e, Listings(es));
        if part.Failure? {
          return Failure(part.error);
        }
        idx' := idx.(exactIPs := part.value.exactIPs, cidrs := part.value.cidrs);
        order' := part.value.valueOrder;
      case UserDynamic =>
        if idx.dynamicUser.None? { idx' := idx.(dynamicUser := Some(e)); }
      case Unset =>
        if idx.defaultEnd.None? { idx' := idx.(defaultEnd := Some(e)); }
      case _ =>
    }
    return Success((idx', order'));
  }

  method IndexEndpoints(es: seq<Endpoint>) returns (r: Result<Index, BadValue>)
    ensures r.Success? <==> WellFormed(Listings(es))
    ensures r.Success? ==> IndexOf(es, r.value)
    ensures r.Failure? ==> FirstMalformed(Listings(es), r.error)
  {
    var idx, valueOrder := Index(map[], map[], [], None, None), 0;
    ghost var done: seq<Endpoint> := [];
    for i := 0 to |es|
      invariant done == es[..i]
      invariant IndexOf(done, idx)
      invariant valueOrder == |Listings(done)| && WellFormed(Listings(done))
    {
      var step := AddEndpoint(idx, valueOrder, es[i], done);
      if step.Failure? {
        MalformedInPrefix(es, i, step.error);
        return Failure(step.error);
      }
      idx, valueOrder := step.value.0, step.value.1;
      done := done + [es[i]];
    }
    assert done == es;
    return Success(idx);
  }

  method BuildEndpointIndex(endpoints: map<string, Endpoint>, order: seq<string>) returns (r: Result<Index, BadValue>)
    ensures r.Success? <==> WellFormed(Listings(FileOrder(endpoints, order)))
    ensures r.Success? ==> IndexOf(FileOrder(endpoints, order), r.value)
    ensures r.Failure? ==> FirstMalformed(Listings(FileOrder(endpoints, order)), r.error)
  {
    var names := EndpointNames(endpoints, order);
    r := IndexEndpoints(Pick(endpoints, names));
  }

  // ---- Looking up an address through the index ----

  predicate ByOrder(a: Entry, b: Entry) { a.order < b.order }

  ghost predicate Describes(p: MatchValue -> bool, ls: seq<Listing>, x: Entry) {
    x.order < |ls| && ls[x.order].endpoint == x.endpoint && p(ls[x.order].value)
  }

  lemma {:induction false} SelectMeaning(p: MatchValue -> bool, ls: seq<Listing>)
    ensures forall x :: x in Select(p, ls) <==> Describes(p, ls, x)
    ensures StrictlySorted(ByOrder, Select(p, ls))
  {
    if ls != [] {
      var n := |ls| - 1;
      SelectMeaning(p, ls[..n]);
      assert forall x :: Describes(p, ls, x) <==>
        Describes(p, ls[..n], x) || (x == Entry(n, ls[n].endpoint) && p(ls[n].value));
      assert forall x :: x in Select(p, ls[..n]) ==> x.order < n;
    }
  }

  /** Two disjoint selections, concatenated and sorted by number, are the selection of their union. */
  lemma SortedUnionOfSelections(
    p: MatchValue -> bool, q: MatchValue -> bool, either: MatchValue -> bool, ls: seq<Listing>)
    requires forall v :: (either(v) <==> p(v) || q(v)) && !(p(v) && q(v))
    ensures StableSort(ByOrder, Select(p, ls) + Select(q, ls)) == Select(either, ls)
  {
    SelectMeaning(p, ls);
    SelectMeaning(q, ls);
    SelectMeaning(either, ls);
    var union := Select(p, ls) + Select(q, ls);
    DistinctConcat(Select(p, ls), Select(q, ls));
    forall x ensures x in union <==> x in Select(either, ls) {
      assert x in union <==> Describes(p, ls, x) || Describes(q, ls, x);
    }
    SortOfDistinct(ByOrder, union, Select(either, ls));
  }

  ghost function CidrHits(cidrs: seq<CidrEntry>, ip: IpAddr): seq<Entry> {
    if cidrs == [] then []
    else
      var c := cidrs[|cidrs| - 1];
      var front := CidrHits(cidrs[..|cidrs| - 1], ip);
      if Contains(c.prefix, ip) then front + [Entry(c.order, c.endpoint)] else front
  }

  /** Hits on the masked prefixes are hits on the prefixes as written. */
  lemma {:induction false} CidrHitsMeaning(ls: seq<Listing>, ip: IpAddr)
    ensures CidrHits(CidrsOf(ls), ip) == Select(CoveringAsPrefix(ip), ls)
  {
    if ls != [] {
      var n := |ls| - 1;
      CidrHitsMeaning(ls[..n], ip);
      if ls[n].value.Cidr? {
        MaskedContainsTheSame(ls[n].value.prefix, ip);
        ContainsIsSharedBits(ls[n].value.prefix, ip);
        assert CidrsOf(ls)[..|CidrsOf(ls)| - 1] == CidrsOf(ls[..n]);
      }
    }
  }

  /** Merging exact and CIDR hits and sorting them by number yields the covering listings in file order. */
  lemma SortedHitsAreCovering(ls: seq<Listing>, ip: IpAddr)
    ensures StableSort(ByOrder, Select(CoveringExactly(ip), ls) + CidrHits(CidrsOf(ls), ip)) == Select(Covering(ip), ls)
  {
    CidrHitsMeaning(ls, ip);
    SortedUnionOfSelections(CoveringExactly(ip), CoveringAsPrefix(ip), Covering(ip), ls);
  }

  function Endpoints(entries: seq<Entry>): (es: seq<Endpoint>) {
    seq(|entries|, i requires 0 <= i < |entries| => entries[i].endpoint)
  }

  ghost predicate AnyOf(covers: MatchValue -> bool, values: seq<MatchValue>) {
    exists v :: v in values && covers(v)
  }

  lemma SelectedSnoc(covers: MatchValue -> bool, q: Endpoint -> bool, ls: seq<Listing>, l: Listing)
    ensures First(q, Endpoints(Select(covers, ls + [l])))
         == var front := First(q, Endpoints(Select(covers, ls)));
            if front.Some? then front else if covers(l.value) && q(l.endpoint) then Some(l.endpoint) else None
  {
    SelectSnoc(covers, ls, l);
    var front := Endpoints(Select(covers, ls));
    if covers(l.value) {
      FirstOfSnoc(q, front, l.endpoint);
      assert Endpoints(Select(covers, ls + [l])) == front + [l.endpoint];
    }
  }

  lemma {:induction false} SelectedOfOwn(
    covers: MatchValue -> bool, q: Endpoint -> bool, ls: seq<Listing>, e: Endpoint, j: nat)
    requires e.matchType == Ip && j <= |e.values|
    ensures First(q, Endpoints(Select(covers, ls + Own(e)[..j])))
         == var front := First(q, Endpoints(Select(covers, ls)));
            if front.Some? then front else if q(e) && AnyOf(covers, e.values[..j]) then Some(e) else None
    decreases j
  {
    if j == 0 {
      assert ls + Own(e)[..j] == ls;
    } else {
      SelectedOfOwn(covers, q, ls, e, j - 1);
      SelectedSnoc(covers, q, ls + Own(e)[..j - 1], Listing(e.values[j - 1], e));
      assert ls + Own(e)[..j] == ls + Own(e)[..j - 1] + [Listing(e.values[j - 1], e)];
      assert e.values[..j] == e.values[..j - 1] + [e.values[j - 1]];
      assert AnyOf(covers, e.values[..j]) <==> AnyOf(covers, e.values[..j - 1]) || covers(e.values[j - 1]);
    }
  }

  /** The first acceptable covering listing belongs to the first acceptable endpoint that lists a covering value. */
  lemma {:induction false} CoveringIsScan(covers: MatchValue -> bool, q: Endpoint -> bool, es: seq<Endpoint>)
    ensures First(q, Endpoints(Select(covers, Listings(es)))) == First(Both(Lists(covers), q), es)
  {
    if es != [] {
      var n := |es| - 1;
      var e := es[n];
      CoveringIsScan(covers, q, es[..n]);
      if e.matchType == Ip {
        SelectedOfOwn(covers, q, Listings(es[..n]), e, |e.values|);
        assert Own(e)[..|e.values|] == Own(e) && e.values[..|e.values|] == e.values;
      } else {
        assert Listings(es) == Listings(es[..n]);
      }
    }
  }

  method FirstCompatible(candidates: seq<Endpoint>, transport: string) returns (r: Option<Endpoint>)
    ensures r == First(Speaks(transport), candidates)
  {
    for i := 0 to |candidates|
      invariant forall j :: 0 <= j < i ==> !Speaks(transport)(candidates[j])
    {
      if TransportMatches(candidates[i], transport) {
        FirstIs(Speaks(transport), candidates, i);
        return Some(candidates[i]);
      }
    }
    FirstMeaning(Speaks(transport), candidates);
    return None;
  }

  method MatchIP(idx: Index, ip: IpAddr, transport: string, ghost es: seq<Endpoint>) returns (r: Option<Endpoint>)
    requires IndexOf(es, idx)
    ensures r == First(Both(Lists(Covering(ip)), Speaks(transport)), es)
  {
    var matches := Get(idx.exactIPs, ip);
    for i := 0 to |idx.cidrs|
      invariant matches == Get(idx.exactIPs, ip) + CidrHits(idx.cidrs[..i], ip)
    {
      assert idx.cidrs[..i + 1][..i] == idx.cidrs[..i];
      if Contains(idx.cidrs[i].prefix, ip) {
        matches := matches + [Entry(idx.cidrs[i].order, idx.cidrs[i].endpoint)];
      }
    }
    assert idx.cidrs[..|idx.cidrs|] == idx.cidrs;
    matches := StableSort(ByOrder, matches);
    SortedHitsAreCovering(Listings(es), ip);
    CoveringIsScan(Covering(ip), Speaks(transport), es);
    r := FirstCompatible(Endpoints(matches), transport);
  }

  method MatchUser(idx: Index, user: string, transport: string, ghost es: seq<Endpoint>) returns (r: Option<Endpoint>)
    requires IndexOf(es, idx)
    ensures r == First(Both(IsUser(user), Speaks(transport)), es)
  {
    FirstOfFilter(IsUser(user), Speaks(transport), Both(IsUser(user), Speaks(transport)), es);
    r := FirstCompatible(Get(idx.users, user), transport);
  }

  /** The index answers every request as the plain scan in file order does. */
  method LookUp(idx: Index, req: Request, ghost es: seq<Endpoint>) returns (r: Option<Endpoint>)
    requires IndexOf(es, idx)
    ensures r == Scan(es, req)
  {
    var t := NormalizeTransport(req.transport);
    r := MatchUser(idx, req.fromUser, t, es);
    if r.Some? || req.source.None? {
      return;
    }
    r := MatchIP(idx, Unmap(req.source.value), t, es);
    if r.Some? {
      return;
    }
    if idx.dynamicUser.Some? && req.fromUser != "" && TransportMatches(idx.dynamicUser.value, t) {
      return idx.dynamicUser;
    }
    if idx.defaultEnd.Some? && TransportMatches(idx.defaultEnd.value, t) {
      return idx.defaultEnd;
    }
    return None;
  }
}
