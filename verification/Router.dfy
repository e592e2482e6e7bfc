/** The router of routing.go: endpoint matching over a cached index, and route matching. */
module Routers {
  import opened Config
  import opened Precedence
  import opened Routing
  import opened Scanning
  import opened Sorting
  import opened Text

  // ---- Routes of one context ----

  predicate Hits(r: Route, toUser: string) {
    || r.id == toUser
    || (r.how == ByPrefix && HasPrefix(toUser, r.id))
    || (r.how == Any && (r.id == "" || HasSubstring(toUser, r.id)))
  }

  /** The callee a route is for, by its kind: one that starts with the ID, contains it, or is the ID. */
  ghost predicate IsFor(r: Route, toUser: string) {
    match r.how
    case ByPrefix => exists b :: IsMadeOf(toUser, "", r.id, b)
    case Any => exists a, b :: IsMadeOf(toUser, a, r.id, b)
    case OtherMatch(_) => toUser == r.id
  }

  lemma HitsIff(r: Route, toUser: string)
    ensures Hits(r, toUser) <==> IsFor(r, toUser)
  {
    PrefixMeaning(toUser, r.id);
    SubstringMeaning(toUser, r.id);
    assert IsMadeOf(toUser, "", toUser, "");
    assert r.id == "" ==> IsMadeOf(toUser, "", "", toUser);
  }

  ghost function HitBy(toUser: string): Route -> bool { (r: Route) => Hits(r, toUser) }

  /** The route the loop stops at, or the empty route. */
  ghost function Chosen(context: seq<Route>, toUser: string): Route {
    var hit := First(HitBy(toUser), context);
    if hit.Some? then hit.value else NO_ROUTE
  }

  /** The i-th route is for the callee, none before it is, and it is the one handed back. */
  ghost predicate LeadsFirst(context: seq<Route>, toUser: string, i: int, route: Option<Route>) {
    && 0 <= i < |context| && route == Some(context[i]) && IsFor(context[i], toUser)
    && forall j :: 0 <= j < i ==> !IsFor(context[j], toUser)
  }

  predicate Accepted(r: Route) { r.how == Any || r.id != "" }

  ghost predicate Matched(context: seq<Route>, toUser: string) { Accepted(Chosen(context, toUser)) }

  ghost predicate SomeHit(context: seq<Route>, toUser: string) {
    exists i :: 0 <= i < |context| && Hits(context[i], toUser)
  }

  ghost function Blank(): Route -> bool { (r: Route) => r.id == "" }

  /** The first route without an ID, if there is one, is an `any` route. */
  ghost predicate BlanksCatchAll(context: seq<Route>) {
    var blank := First(Blank(), context);
    blank.Some? ==> blank.value.how == Any
  }

  lemma OnlyBlanksHitTheEmptyUser(r: Route)
    ensures Hits(r, "") <==> r.id == ""
  {
    if r.id != "" {
      assert forall i :: 0 <= i <= 0 ==> ""[i..] == "";
    }
  }

  lemma {:induction false} EmptyUserHitsTheFirstBlank(context: seq<Route>)
    ensures First(HitBy(""), context) == First(Blank(), context)
  {
    if context != [] {
      EmptyUserHitsTheFirstBlank(context[..|context| - 1]);
      OnlyBlanksHitTheEmptyUser(context[|context| - 1]);
    }
  }

  /** A hit that is not accepted comes from a context whose first ID-less route is not `any`. */
  lemma RejectedHitIsTheFirstBlank(context: seq<Route>, toUser: string)
    requires First(HitBy(toUser), context).Some? && !Accepted(First(HitBy(toUser), context).value)
    ensures !BlanksCatchAll(context)
  {
    FirstMeaning(HitBy(toUser), context);
    var i: nat :| IsFirst(HitBy(toUser), context, i) && context[i] == First(HitBy(toUser), context).value;
    FirstMeaning(Blank(), context);
    var b: nat :| IsFirst(Blank(), context, b) && context[b] == First(Blank(), context).value;
    var blank := context[b];
    assert blank.how == Any ==> HitBy(toUser)(blank);
  }

  /**
   Matching succeeds exactly when some route of the context hits, for every callee,
   if and only if the first ID-less route (if any) is a catch-all.
   */
  lemma MatchingIsCompleteIff(context: seq<Route>)
    ensures (forall toUser :: Matched(context, toUser) <==> SomeHit(context, toUser)) <==> BlanksCatchAll(context)
  {
    if BlanksCatchAll(context) {
      forall toUser ensures Matched(context, toUser) <==> SomeHit(context, toUser) {
        FirstMeaning(HitBy(toUser), context);
        assert NoneOf(HitBy(toUser), context) <==> !SomeHit(context, toUser);
        if First(HitBy(toUser), context).Some? && !Accepted(First(HitBy(toUser), context).value) {
          RejectedHitIsTheFirstBlank(context, toUser);
        }
      }
    } else {
      EmptyUserHitsTheFirstBlank(context);
      FirstIsMember(Blank(), context);
      var blank := First(Blank(), context).value;
      var i :| 0 <= i < |context| && context[i] == blank;
      assert Hits(context[i], "");
      assert SomeHit(context, "") && !Matched(context, "");
    }
  }

  /** Every callee is matched if and only if the first ID-less route exists and is `any`. */
  lemma MatchingIsTotalIff(context: seq<Route>)
    ensures (forall toUser :: Matched(context, toUser)) <==> First(Blank(), context).Some? && BlanksCatchAll(context)
  {
    EmptyUserHitsTheFirstBlank(context);
    assert Matched(context, "") <==> First(Blank(), context).Some? && BlanksCatchAll(context) by {
      FirstIsMember(Blank(), context);
    }
    if First(Blank(), context).Some? && BlanksCatchAll(context) {
      MatchingIsCompleteIff(context);
      FirstIsMember(Blank(), context);
      var i :| 0 <= i < |context| && context[i] == First(Blank(), context).value;
      forall toUser ensures Matched(context, toUser) {
        assert Hits(context[i], toUser);
        assert SomeHit(context, toUser);
      }
    }
  }

  /** When every route has an ID or is `any`, matching returns the earliest route that hits. */
  lemma EarliestRouteWins(context: seq<Route>, toUser: string)
    requires forall i :: 0 <= i < |context| ==> Accepted(context[i])
    ensures Matched(context, toUser) <==> SomeHit(context, toUser)
    ensures Matched(context, toUser) ==>
              exists i: nat :: IsFirst(HitBy(toUser), context, i) && context[i] == Chosen(context, toUser)
  {
    FirstMeaning(HitBy(toUser), context);
    assert NoneOf(HitBy(toUser), context) <==> !SomeHit(context, toUser);
  }

  /** An ID-less prefix route swallows every call behind it: something hits, nothing is matched. */
  lemma BlankPrefixRouteShadows(toUser: string, later: Route)
    requires Hits(later, toUser)
    ensures var context := [Route("", "trunk", ByPrefix, false, 0), later];
            SomeHit(context, toUser) && !Matched(context, toUser)
  {
    var context := [Route("", "trunk", ByPrefix, false, 0), later];
    assert Hits(context[0], toUser);
    FirstIs(HitBy(toUser), context, 0);
  }

  // ---- The outgoing side ----

  /** The endpoint a matched route leads to. */
  ghost function Outgoing(
    endpoints: map<string, Endpoint>, users: string -> Option<Endpoint>, route: Route, toUser: string)
    : Option<Endpoint>
  {
    if route.useRegistry then
      if route.endpointName != "" then
        if route.endpointName in endpoints
        then Some(endpoints[route.endpointName].(name := toUser, useRegistry := true)) else None
      else
        var e := users(toUser);
        if e.Some? then Some(e.value.(useRegistry := true)) else None
    else if route.endpointName in endpoints && route.endpointName != "" then Some(endpoints[route.endpointName])
    else None
  }

  /** The endpoint `e`, to be looked up in the registry, perhaps under another name. */
  ghost predicate IsRegistered(r: Endpoint, e: Endpoint) {
    r.useRegistry && r.(name := e.name, useRegistry := e.useRegistry) == e
  }

  /** The earliest endpoint of that user, provided the index can be built. */
  ghost predicate LeadsToUser(endpoints: Configured, order: seq<string>, user: string, r: Option<Endpoint>) {
    && (r.None? <==> !AllValuesParse(endpoints) || Users(endpoints, user) == {})
    && (r.Some? ==> exists k :: IsEarliest(order, Users(endpoints, user), k)
                                && IsRegistered(r.value, endpoints[k]) && r.value.name == user)
  }

  /** A route leads to the callee's own endpoint, to the named one under the callee's name, or to the named one. */
  ghost predicate LeadsTo(
    endpoints: Configured, order: seq<string>, route: Route, toUser: string, r: Option<Endpoint>)
  {
    var name := route.endpointName;
    if route.useRegistry && name == "" then LeadsToUser(endpoints, order, toUser, r)
    else
      && (r.Some? <==> name != "" && name in endpoints)
      && (r.Some? && route.useRegistry ==> IsRegistered(r.value, endpoints[name]) && r.value.name == toUser)
      && (r.Some? && !route.useRegistry ==> r.value == endpoints[name])
  }

  ghost function UserLookup(es: seq<Endpoint>): string -> Option<Endpoint> {
    (user: string) => if WellFormed(Listings(es)) then First(IsUser(user), es) else None
  }

  lemma {:induction false} HeadOfFilter<T>(p: T -> bool, s: seq<T>)
    ensures First(p, s) == if Filter(p, s) == [] then None else Some(Filter(p, s)[0])
  {
    if s != [] { HeadOfFilter(p, s[..|s| - 1]); }
  }

  class Router {
    const endpoints: map<string, Endpoint>
    const routes: map<string, seq<Route>>
    const order: seq<string>
    var index: Option<Index>

    ghost function Ordered(): seq<Endpoint> { FileOrder(endpoints, order) }

    ghost predicate Valid()
      reads this
    {
      index.Some? ==> WellFormed(Listings(Ordered())) && IndexOf(Ordered(), index.value)
    }

    constructor (endpoints: map<string, Endpoint>, routes: map<string, seq<Route>>, order: seq<string>)
      ensures Valid()
      ensures this.endpoints == endpoints && this.routes == routes && this.order == order
    {
      this.endpoints, this.routes, this.order := endpoints, routes, order;
      index := None;
    }

    /** Builds the index on first use and keeps it. */
    method EndpointIndex() returns (r: Result<Index, BadValue>)
      requires Valid()
      modifies this`index
      ensures Valid()
      ensures r.Success? <==> WellFormed(Listings(Ordered()))
      ensures r.Success? ==> IndexOf(Ordered(), r.value)
    {
      if index.Some? {
        return Success(index.value);
      }
      r := BuildEndpointIndex(endpoints, order);
      if r.Success? {
        index := Some(r.value);
      }
    }

    /** Through the index, the answer of the plain scan in file order. */
    method MatchEndpoint(req: Request) returns (r: Option<Endpoint>)
      requires Valid()
      modifies this`index
      ensures Valid()
      ensures !AllValuesParse(endpoints) ==> r == None
      ensures AllValuesParse(endpoints) && NoDuplicates(order) ==> RightAnswer(endpoints, order, req, r)
      ensures r == if WellFormed(Listings(Ordered())) then Scan(Ordered(), req) else None
    {
      WellFormedIff(endpoints, order);
      var built := EndpointIndex();
      if built.Failure? {
        return None;
      }
      if NoDuplicates(order) { ScanIsRight(endpoints, order, req); }
      r := LookUp(built.value, req, Ordered());
    }

    method FindUserEndpoint(user: string) returns (r: Option<Endpoint>)
      requires Valid()
      modifies this`index
      ensures Valid()
      ensures r == UserLookup(Ordered())(user)
      ensures r.None? <==> !AllValuesParse(endpoints) || Users(endpoints, user) == {}
      ensures r.Some? ==> exists k :: IsEarliest(order, Users(endpoints, user), k) && r.value == endpoints[k]
    {
      WellFormedIff(endpoints, order);
      UserScan(endpoints, order, user);
      var built := EndpointIndex();
      if built.Failure? {
        return None;
      }
      var found := Get(built.value.users, user);
      HeadOfFilter(IsUser(user), Ordered());
      if |found| == 0 {
        return None;
      }
      return Some(found[0]);
    }

    /** `route` is the out-parameter: None when the context does not exist and it is left alone. */
    method MatchIncomingRoute(toUser: string, context: string) returns (matched: bool, route: Option<Route>)
      ensures context !in routes ==> !matched && route == None
      ensures context in routes ==>
                route == Some(Chosen(routes[context], toUser)) && matched == Matched(routes[context], toUser)
      ensures matched <==>
                && context in routes && (exists i :: LeadsFirst(routes[context], toUser, i, route))
                && (route.value.id != "" || route.value.how == Any)
    {
      if context !in routes {
        return false, None;
      }
      var candidates := routes[context];
      var chosen := NO_ROUTE;
      var i := 0;
      while i < |candidates|
        invariant i <= |candidates| && chosen == NO_ROUTE
        invariant forall j :: 0 <= j < i ==> !HitBy(toUser)(candidates[j])
      {
        if Hits(candidates[i], toUser) {
          chosen := candidates[i];
          FirstIs(HitBy(toUser), candidates, i);
          break;
        }
        i := i + 1;
      }
      FirstMeaning(HitBy(toUser), candidates);
      forall j | 0 <= j < |candidates| ensures Hits(candidates[j], toUser) <==> IsFor(candidates[j], toUser) {
        HitsIff(candidates[j], toUser);
      }
      assert i < |candidates| ==> LeadsFirst(candidates, toUser, i, Some(chosen));
      return Accepted(chosen), Some(chosen);
    }

    method FindRegisteredUser(user: string) returns (r: Option<Endpoint>)
      requires Valid()
      modifies this`index
      ensures Valid()
      ensures var e := UserLookup(Ordered())(user);
              r == if e.Some? then Some(e.value.(useRegistry := true)) else None
      ensures LeadsToUser(endpoints, order, user, r)
    {
      var found := FindUserEndpoint(user);
      if found.Some? {
        ghost var k :| IsEarliest(order, Users(endpoints, user), k) && found.value == endpoints[k];
        assert IsRegistered(found.value.(useRegistry := true), endpoints[k]);
        return Some(found.value.(useRegistry := true));
      }
      return None;
    }

    method MatchOutgoingRouteEndpoint(toUser: string, route: Route) returns (r: Option<Endpoint>)
      requires Valid()
      modifies this`index
      ensures Valid()
      ensures r == Outgoing(endpoints, UserLookup(Ordered()), route, toUser)
      ensures LeadsTo(endpoints, order, route, toUser, r)
    {
      if route.useRegistry {
        if route.endpointName != "" {
          if route.endpointName !in endpoints {
            return None;
          }
          return Some(endpoints[route.endpointName].(name := toUser, useRegistry := true));
        }
        r := FindRegisteredUser(toUser);
        return;
      }
      if route.endpointName == "" || route.endpointName !in endpoints {
        return None;
      }
      return Some(endpoints[route.endpointName]);
    }
  }

  /** A registry route always leads to an endpoint that bears the callee's name. */
  lemma RegistryRouteNamesTheCallee(endpoints: map<string, Endpoint>, es: seq<Endpoint>, route: Route, toUser: string)
    requires route.useRegistry
    ensures var e := Outgoing(endpoints, UserLookup(es), route, toUser);
            e.Some? ==> e.value.name == toUser && e.value.useRegistry
  {
    FirstIsMember(IsUser(toUser), es);
  }
}
