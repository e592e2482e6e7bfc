/**
 Which endpoint a request is given to, said over the configured keys: who may take it, and
 which of those comes first. Neither the index nor a scan appears in it.
 */
module Precedence {
  import opened Addresses
  import opened Config
  import opened Routing
  import opened Scanning
  import opened Sorting
  import opened Text

  type Configured = map<string, Endpoint>

  /** Of these keys, `k` is the one that stands first. */
  ghost predicate IsEarliest(order: seq<string>, keys: set<string>, k: string) {
    k in keys && forall other :: other in keys && other != k ==> StandsBefore(order, k, other)
  }

  /** A transport is asked for by name, in any spelling, or not at all. */
  ghost predicate Accepts(e: Endpoint, req: Request) {
    NormalizeTransport(e.transport) in {"", NormalizeTransport(req.transport)}
  }

  /** The value names the source, in whatever form it is written, or a network it lies in. */
  ghost predicate Denotes(v: MatchValue, source: IpAddr) {
    match v
    case Exact(a) => SameAddress(a, source)
    case Cidr(p) => SharesLeadingBits(p, Unmap(source))
    case Malformed(_) => false
  }

  ghost function OfCaller(endpoints: Configured, req: Request): set<string> {
    set k | k in endpoints && endpoints[k].matchType == User && endpoints[k].name == req.fromUser
            && Accepts(endpoints[k], req)
  }

  ghost function OfSource(endpoints: Configured, req: Request): set<string>
    requires req.source.Some?
  {
    set k | k in endpoints && endpoints[k].matchType == Ip && Accepts(endpoints[k], req)
            && exists v :: v in endpoints[k].values && Denotes(v, req.source.value)
  }

  ghost function OfType(endpoints: Configured, kind: MatchType): set<string> {
    set k | k in endpoints && endpoints[k].matchType == kind
  }

  datatype Claim = ByUser | BySource | ByDynamicUser | ByDefault

  /** The endpoint under this key has the claim to the request. */
  ghost predicate Claims(endpoints: Configured, order: seq<string>, req: Request, claim: Claim, k: string) {
    match claim
    case ByUser => IsEarliest(order, OfCaller(endpoints, req), k)
    case BySource => req.source.Some? && IsEarliest(order, OfSource(endpoints, req), k)
    case ByDynamicUser =>
      && req.source.Some? && req.fromUser != ""
      && IsEarliest(order, OfType(endpoints, UserDynamic), k) && Accepts(endpoints[k], req)
    case ByDefault =>
      req.source.Some? && IsEarliest(order, OfType(endpoints, Unset), k) && Accepts(endpoints[k], req)
  }

  ghost predicate Claimed(endpoints: Configured, order: seq<string>, req: Request, claim: Claim) {
    exists k :: Claims(endpoints, order, req, claim, k)
  }

  ghost predicate TakenBy(endpoints: Configured, order: seq<string>, req: Request, claim: Claim, r: Option<Endpoint>) {
    exists k :: Claims(endpoints, order, req, claim, k) && k in endpoints && r == Some(endpoints[k])
  }

  /** The endpoint with the strongest claim takes the request; without any claim nobody does. */
  ghost predicate RightAnswer(endpoints: Configured, order: seq<string>, req: Request, r: Option<Endpoint>) {
    if Claimed(endpoints, order, req, ByUser) then TakenBy(endpoints, order, req, ByUser, r)
    else if Claimed(endpoints, order, req, BySource) then TakenBy(endpoints, order, req, BySource, r)
    else if Claimed(endpoints, order, req, ByDynamicUser) then TakenBy(endpoints, order, req, ByDynamicUser, r)
    else if Claimed(endpoints, order, req, ByDefault) then TakenBy(endpoints, order, req, ByDefault, r)
    else r == None
  }

  /** The first match in the list is the earliest of the keys that pass. */
  lemma FirstIsEarliest(p: Endpoint -> bool, endpoints: Configured, order: seq<string>, keys: set<string>)
    requires forall k :: k in keys <==> k in endpoints && p(endpoints[k])
    ensures var r := First(p, FileOrder(endpoints, order));
            && (r.None? ==> keys == {})
            && (r.Some? ==> exists k :: IsEarliest(order, keys, k) && r.value == endpoints[k])
  {
    var names, es := Names(endpoints, order), FileOrder(endpoints, order);
    FirstMeaning(p, es);
    if First(p, es).None? {
      forall k | k in endpoints ensures k !in keys {
        var i :| 0 <= i < |names| && names[i] == k;
        assert !p(es[i]);
      }
    } else {
      var i: nat :| IsFirst(p, es, i) && es[i] == First(p, es).value;
      assert names[i] in names;
      forall other | other in keys && other != names[i] ensures StandsBefore(order, names[i], other) {
        assert other in names;
        var j :| 0 <= j < |names| && names[j] == other;
        assert p(es[j]);
        NamesStandInOrder(endpoints, order, i, j);
      }
      assert IsEarliest(order, keys, names[i]);
    }
  }

  lemma AcceptsIff(e: Endpoint, req: Request)
    ensures TransportMatches(e, NormalizeTransport(req.transport)) <==> Accepts(e, req)
  {
  }

  lemma DenotesIff(v: MatchValue, source: IpAddr)
    ensures Covers(v, Unmap(source)) <==> Denotes(v, source)
  {
    if v.Exact? {
      UnmapIff(v.addr, source);
      UnmapIff(source, source);
      UnmapIff(Unmap(source), source);
    }
  }

  lemma CallerScan(endpoints: Configured, order: seq<string>, req: Request)
    ensures var p := Both(IsUser(req.fromUser), Speaks(NormalizeTransport(req.transport)));
            var r := First(p, FileOrder(endpoints, order));
            if r.None? then !Claimed(endpoints, order, req, ByUser) else TakenBy(endpoints, order, req, ByUser, r)
  {
    forall e: Endpoint ensures TransportMatches(e, NormalizeTransport(req.transport)) <==> Accepts(e, req) {
      AcceptsIff(e, req);
    }
    var p := Both(IsUser(req.fromUser), Speaks(NormalizeTransport(req.transport)));
    FirstIsEarliest(p, endpoints, order, OfCaller(endpoints, req));
  }

  lemma SourceScan(endpoints: Configured, order: seq<string>, req: Request)
    requires req.source.Some?
    ensures var p := Both(Lists(Covering(Unmap(req.source.value))), Speaks(NormalizeTransport(req.transport)));
            var r := First(p, FileOrder(endpoints, order));
            if r.None? then !Claimed(endpoints, order, req, BySource) else TakenBy(endpoints, order, req, BySource, r)
  {
    forall e: Endpoint ensures TransportMatches(e, NormalizeTransport(req.transport)) <==> Accepts(e, req) {
      AcceptsIff(e, req);
    }
    forall v: MatchValue ensures Covers(v, Unmap(req.source.value)) <==> Denotes(v, req.source.value) {
      DenotesIff(v, req.source.value);
    }
    var p := Both(Lists(Covering(Unmap(req.source.value))), Speaks(NormalizeTransport(req.transport)));
    FirstIsEarliest(p, endpoints, order, OfSource(endpoints, req));
  }

  /** A file order without repetitions leaves no doubt which key stands first. */
  lemma EarliestIsUnique(order: seq<string>, keys: set<string>, a: string, b: string)
    requires NoDuplicates(order) && IsEarliest(order, keys, a) && IsEarliest(order, keys, b)
    ensures a == b
  {
    if a != b {
      assert StandsBefore(order, a, b) && StandsBefore(order, b, a);
      StringLessConnected(a, b);
    }
  }

  lemma TypeScan(endpoints: Configured, order: seq<string>, kind: MatchType)
    requires NoDuplicates(order)
    ensures var r, keys := First(IsType(kind), FileOrder(endpoints, order)), OfType(endpoints, kind);
            && (r.None? ==> keys == {})
            && (r.Some? ==> exists k :: IsEarliest(order, keys, k) && r.value == endpoints[k])
            && forall k :: r.Some? && IsEarliest(order, keys, k) ==> r.value == endpoints[k]
  {
    var keys := OfType(endpoints, kind);
    FirstIsEarliest(IsType(kind), endpoints, order, keys);
    var r := First(IsType(kind), FileOrder(endpoints, order));
    if r.Some? {
      var first :| IsEarliest(order, keys, first) && r.value == endpoints[first];
      forall k | IsEarliest(order, keys, k) ensures k == first {
        EarliestIsUnique(order, keys, k, first);
      }
    }
  }

  lemma DynamicScan(endpoints: Configured, order: seq<string>, req: Request)
    requires NoDuplicates(order) && req.source.Some?
    ensures var r := First(IsType(UserDynamic), FileOrder(endpoints, order));
            if r.Some? && req.fromUser != "" && TransportMatches(r.value, NormalizeTransport(req.transport))
            then TakenBy(endpoints, order, req, ByDynamicUser, r)
            else !Claimed(endpoints, order, req, ByDynamicUser)
  {
    TypeScan(endpoints, order, UserDynamic);
    var r := First(IsType(UserDynamic), FileOrder(endpoints, order));
    if r.Some? {
      AcceptsIff(r.value, req);
    }
  }

  lemma DefaultScan(endpoints: Configured, order: seq<string>, req: Request)
    requires NoDuplicates(order) && req.source.Some?
    ensures var r := First(IsType(Unset), FileOrder(endpoints, order));
            if r.Some? && TransportMatches(r.value, NormalizeTransport(req.transport))
            then TakenBy(endpoints, order, req, ByDefault, r)
            else !Claimed(endpoints, order, req, ByDefault)
  {
    TypeScan(endpoints, order, Unset);
    var r := First(IsType(Unset), FileOrder(endpoints, order));
    if r.Some? {
      AcceptsIff(r.value, req);
    }
  }

  /** The plain scan gives every request to the endpoint with the strongest claim. */
  lemma ScanIsRight(endpoints: Configured, order: seq<string>, req: Request)
    requires NoDuplicates(order)
    ensures RightAnswer(endpoints, order, req, Scan(FileOrder(endpoints, order), req))
  {
    CallerScan(endpoints, order, req);
    if req.source.Some? {
      SourceScan(endpoints, order, req);
      DynamicScan(endpoints, order, req);
      DefaultScan(endpoints, order, req);
    }
  }

  // ---- Malformed values ----

  /** No endpoint matched by address lists a value that is neither an address nor a network. */
  ghost predicate AllValuesParse(endpoints: Configured) {
    forall k, v :: k in endpoints && endpoints[k].matchType == Ip && v in endpoints[k].values ==> !v.Malformed?
  }

  lemma {:induction false} ListingsMeaning(es: seq<Endpoint>)
    ensures forall l :: l in Listings(es) <==>
              l.endpoint in es && l.endpoint.matchType == Ip && l.value in l.endpoint.values
  {
    if es != [] {
      var n := |es| - 1;
      ListingsMeaning(es[..n]);
      assert es == es[..n] + [es[n]];
      forall l ensures l in Own(es[n]) <==> es[n].matchType == Ip && l.endpoint == es[n] && l.value in es[n].values {
        OwnMeaning(es[n], l);
      }
    }
  }

  lemma OwnMeaning(e: Endpoint, l: Listing)
    ensures l in Own(e) <==> e.matchType == Ip && l.endpoint == e && l.value in e.values
  {
    if e.matchType == Ip && l.endpoint == e && l.value in e.values {
      var i :| 0 <= i < |e.values| && e.values[i] == l.value;
      assert Own(e)[i] == l;
    }
  }

  lemma WellFormedIff(endpoints: Configured, order: seq<string>)
    ensures WellFormed(Listings(FileOrder(endpoints, order))) <==> AllValuesParse(endpoints)
  {
    var es := FileOrder(endpoints, order);
    var ls := Listings(es);
    ListingsMeaning(es);
    FileOrderHoldsTheEndpoints(endpoints, order);
    if WellFormed(ls) {
      forall k, v | k in endpoints && endpoints[k].matchType == Ip && v in endpoints[k].values ensures !v.Malformed? {
        assert endpoints[k] in endpoints.Values;
        assert Listing(v, endpoints[k]) in ls;
      }
    }
    if AllValuesParse(endpoints) {
      forall i | 0 <= i < |ls| ensures !ls[i].value.Malformed? {
        assert ls[i] in ls;
        var k :| k in endpoints && endpoints[k] == ls[i].endpoint;
      }
    }
  }

  // ---- Endpoints by user name ----

  ghost function Users(endpoints: Configured, user: string): set<string> {
    set k | k in endpoints && endpoints[k].matchType == User && endpoints[k].name == user
  }

  lemma UserScan(endpoints: Configured, order: seq<string>, user: string)
    ensures var r, keys := First(IsUser(user), FileOrder(endpoints, order)), Users(endpoints, user);
            && (r.None? <==> keys == {})
            && (r.Some? ==> exists k :: IsEarliest(order, keys, k) && r.value == endpoints[k])
  {
    FirstIsEarliest(IsUser(user), endpoints, order, Users(endpoints, user));
  }
}
