/** Defaulting and validation of config.go, and what a validated configuration guarantees to the router. */
module ConfigLoading {
  import opened Config
  import opened Precedence
  import opened Routing
  import opened Routers
  import opened Scanning
  import opened Text

  /** The decoded YAML; a route context written as null is None. */
  datatype Raw = Raw(endpoints: map<string, Endpoint>, routes: map<string, Option<seq<Route>>>, order: seq<string>)

  datatype Loaded = Loaded(endpoints: map<string, Endpoint>, routes: map<string, seq<Route>>, order: seq<string>)

  const DEFAULT_CONTEXT := "default"
  const DEFAULT_ROUTES := [Route("", "", Any, true, 0)]

  function Defaulted(key: string, e: Endpoint): Endpoint {
    e.(name := if e.name == "" then key else e.name, route := if e.route == "" then DEFAULT_CONTEXT else e.route)
  }

  function DefaultedRoutes(routes: map<string, Option<seq<Route>>>): map<string, seq<Route>> {
    map k | k in routes.Keys + {DEFAULT_CONTEXT} ::
      if k in routes && routes[k].Some? then routes[k].value else if k == DEFAULT_CONTEXT then DEFAULT_ROUTES else []
  }

  ghost function DefaultedEndpoints(endpoints: map<string, Endpoint>): map<string, Endpoint> {
    map k | k in endpoints :: Defaulted(k, endpoints[k])
  }

  datatype LoadError = ContactError(key: string) | IndexError(bad: BadValue)

  ghost predicate Loadable(raw: Raw) {
    && (forall k :: k in raw.endpoints ==> !raw.endpoints[k].contact.BadContact?)
    && AllValuesParse(raw.endpoints)
  }

  ghost function LoadedFrom(raw: Raw): Loaded {
    Loaded(DefaultedEndpoints(raw.endpoints), DefaultedRoutes(raw.routes), raw.order)
  }

  method Load(raw: Raw) returns (r: Result<Loaded, LoadError>)
    ensures r.Success? ==> r.value == LoadedFrom(raw)
    ensures r.Success? <==> Loadable(raw)
    ensures r.Failure? && r.error.ContactError? ==>
              r.error.key in raw.endpoints && raw.endpoints[r.error.key].contact.BadContact?
    ensures r.Failure? && r.error.IndexError? ==> !AllValuesParse(raw.endpoints)
  {
    var endpoints := raw.endpoints;
    var rest := endpoints.Keys;
    while rest != {}
      invariant rest <= raw.endpoints.Keys && endpoints.Keys == raw.endpoints.Keys
      invariant forall k :: k in raw.endpoints ==>
                  endpoints[k] == if k in rest then raw.endpoints[k] else Defaulted(k, raw.endpoints[k])
      invariant forall k :: k in raw.endpoints && k !in rest ==> !raw.endpoints[k].contact.BadContact?
      decreases rest
    {
      var key :| key in rest;
      if endpoints[key].contact.BadContact? {
        return Failure(ContactError(key));
      }
      endpoints := endpoints[key := Defaulted(key, endpoints[key])];
      rest := rest - {key};
    }
    assert endpoints == DefaultedEndpoints(raw.endpoints);
    DefaultsKeepValues(raw.endpoints);
    WellFormedIff(endpoints, raw.order);
    var idx := BuildEndpointIndex(endpoints, raw.order);
    if idx.Failure? {
      return Failure(IndexError(idx.error));
    }
    return Success(Loaded(endpoints, DefaultedRoutes(raw.routes), raw.order));
  }

  lemma DefaultsKeepValues(endpoints: map<string, Endpoint>)
    ensures AllValuesParse(DefaultedEndpoints(endpoints)) <==> AllValuesParse(endpoints)
  {
    var filled := DefaultedEndpoints(endpoints);
    assert forall k :: k in endpoints ==> filled[k].values == endpoints[k].values;
  }

  /** The default stands in for what the file leaves empty. */
  ghost predicate FilledIn(written: string, default: string, now: string) {
    now == written != "" || (written == "" && now == default)
  }

  /** Nothing the file says is changed: empty names become their keys, empty contexts "default", null contexts empty. */
  lemma LoadedMeaning(raw: Raw)
    ensures var c := LoadedFrom(raw);
            && c.endpoints.Keys == raw.endpoints.Keys && c.order == raw.order
            && (forall k :: k in raw.endpoints ==>
                  var e, now := raw.endpoints[k], c.endpoints[k];
                  && FilledIn(e.name, k, now.name) && FilledIn(e.route, "default", now.route)
                  && now.(name := e.name, route := e.route) == e)
            && c.routes.Keys == raw.routes.Keys + {"default"}
            && (forall k :: k in raw.routes && raw.routes[k].Some? ==> c.routes[k] == raw.routes[k].value)
            && (forall k :: k in raw.routes && raw.routes[k].None? && k != "default" ==> c.routes[k] == [])
  {
  }

  /** A file without a default context gets one that sends every callee to the registry. */
  lemma DefaultContextCatchesAll(raw: Raw, toUser: string)
    requires "default" !in raw.routes || raw.routes["default"].None?
    ensures var context := LoadedFrom(raw).routes["default"];
            Matched(context, toUser) && Chosen(context, toUser).useRegistry
            && Chosen(context, toUser).endpointName == "" && Chosen(context, toUser).hangupCode == 0
  {
    FirstIs(HitBy(toUser), DEFAULT_ROUTES, 0);
  }

  /** What is loaded loads to itself. */
  lemma LoadingIsIdempotent(raw: Raw)
    ensures var c := LoadedFrom(raw);
            LoadedFrom(Raw(c.endpoints, map k | k in c.routes :: Some(c.routes[k]), c.order)) == c
  {
    var c := LoadedFrom(raw);
    var again := LoadedFrom(Raw(c.endpoints, map k | k in c.routes :: Some(c.routes[k]), c.order));
    assert again.endpoints == c.endpoints;
    assert again.routes == c.routes;
  }

  // ---- Validation ----

  predicate AuthSupported(e: Endpoint) { !AuthType(e.auth).OtherAuth? }

  predicate RouteSupported(endpoints: map<string, Endpoint>, r: Route) {
    if r.useRegistry then r.endpointName == "" || r.endpointName in endpoints
    else if r.hangupCode > 0 then r.endpointName == ""
    else r.endpointName in endpoints
  }

  /** A name that is not configured is empty, on a registry or hangup route; a plain hangup route names nothing. */
  ghost predicate NamesNothingUnknown(endpoints: map<string, Endpoint>, r: Route) {
    && (r.endpointName !in endpoints ==> r.endpointName == "" && (r.useRegistry || r.hangupCode > 0))
    && (r.endpointName in endpoints && r.hangupCode > 0 && !r.useRegistry ==> r.endpointName == "")
  }

  ghost function DynamicKeys(endpoints: map<string, Endpoint>): set<string> {
    set k | k in endpoints && endpoints[k].matchType == UserDynamic
  }

  ghost predicate ValidConfig(c: Loaded) {
    && (forall k :: k in c.endpoints ==> !c.endpoints[k].auth.kind.OtherAuth?)
    && |DynamicKeys(c.endpoints)| <= 1
    && AllValuesParse(c.endpoints)
    && (forall ctx, i :: ctx in c.routes && 0 <= i < |c.routes[ctx]| ==>
          NamesNothingUnknown(c.endpoints, c.routes[ctx][i]))
    && (forall k :: k in c.endpoints ==> c.endpoints[k].route in c.routes)
  }

  lemma CountDynamic(endpoints: map<string, Endpoint>, rest: set<string>, key: string)
    requires key in rest && rest <= endpoints.Keys
    ensures |DynamicKeys(endpoints) - (rest - {key})|
         == |DynamicKeys(endpoints) - rest| + if endpoints[key].matchType == UserDynamic then 1 else 0
  {
    var before, after := DynamicKeys(endpoints) - rest, DynamicKeys(endpoints) - (rest - {key});
    assert after == if endpoints[key].matchType == UserDynamic then before + {key} else before;
  }

  method CheckEndpoints(endpoints: map<string, Endpoint>) returns (ok: bool)
    ensures ok <==> (forall k :: k in endpoints ==> AuthSupported(endpoints[k])) && |DynamicKeys(endpoints)| <= 1
  {
    var dynamicUserEndpoints := 0;
    var rest := endpoints.Keys;
    while rest != {}
      invariant rest <= endpoints.Keys
      invariant forall k :: k in endpoints && k !in rest ==> AuthSupported(endpoints[k])
      invariant dynamicUserEndpoints == |DynamicKeys(endpoints) - rest|
      decreases rest
    {
      var key :| key in rest;
      if !AuthSupported(endpoints[key]) {
        return false;
      }
      CountDynamic(endpoints, rest, key);
      rest := rest - {key};
      if endpoints[key].matchType == UserDynamic {
        dynamicUserEndpoints := dynamicUserEndpoints + 1;
      }
    }
    assert DynamicKeys(endpoints) - {} == DynamicKeys(endpoints);
    return dynamicUserEndpoints <= 1;
  }

  method CheckRoutes(endpoints: map<string, Endpoint>, routes: map<string, seq<Route>>) returns (ok: bool)
    ensures ok <==> forall ctx, i :: ctx in routes && 0 <= i < |routes[ctx]| ==>
                      NamesNothingUnknown(endpoints, routes[ctx][i])
  {
    var rest := routes.Keys;
    while rest != {}
      invariant rest <= routes.Keys
      invariant forall ctx, i :: ctx in routes && ctx !in rest && 0 <= i < |routes[ctx]| ==>
                  NamesNothingUnknown(endpoints, routes[ctx][i])
      decreases rest
    {
      var ctx :| ctx in rest;
      for i := 0 to |routes[ctx]|
        invariant forall j :: 0 <= j < i ==> NamesNothingUnknown(endpoints, routes[ctx][j])
      {
        if !RouteSupported(endpoints, routes[ctx][i]) {
          return false;
        }
      }
      rest := rest - {ctx};
    }
    return true;
  }

  method CheckEndpointRoutes(c: Loaded) returns (ok: bool)
    ensures ok <==> forall k :: k in c.endpoints ==> c.endpoints[k].route in c.routes
  {
    var rest := c.endpoints.Keys;
    while rest != {}
      invariant rest <= c.endpoints.Keys
      invariant forall k :: k in c.endpoints && k !in rest ==> c.endpoints[k].route in c.routes
      decreases rest
    {
      var key :| key in rest;
      if c.endpoints[key].route !in c.routes {
        return false;
      }
      rest := rest - {key};
    }
    return true;
  }

  method CheckValues(c: Loaded) returns (ok: bool)
    ensures ok <==> AllValuesParse(c.endpoints)
  {
    WellFormedIff(c.endpoints, c.order);
    var idx := BuildEndpointIndex(c.endpoints, c.order);
    return idx.Success?;
  }

  lemma AuthsAreSupportedIff(endpoints: map<string, Endpoint>)
    ensures (forall k :: k in endpoints ==> AuthSupported(endpoints[k]))
       <==> (forall k :: k in endpoints ==> !endpoints[k].auth.kind.OtherAuth?)
  {
    forall k | k in endpoints ensures AuthSupported(endpoints[k]) <==> !endpoints[k].auth.kind.OtherAuth? {
    }
  }

  method Validate(c: Loaded) returns (ok: bool)
    ensures ok <==> ValidConfig(c)
  {
    AuthsAreSupportedIff(c.endpoints);
    ok := CheckEndpoints(c.endpoints);
    if !ok { return; }
    ok := CheckValues(c);
    if !ok { return; }
    ok := CheckRoutes(c.endpoints, c.routes);
    if !ok { return; }
    ok := CheckEndpointRoutes(c);
  }

  // ---- What validation buys ----

  /** Every endpoint the router can match is a configured one, and its route context exists. */
  lemma MatchedEndpointHasItsContext(c: Loaded, req: Request)
    requires ValidConfig(c)
    ensures var e := Scan(FileOrder(c.endpoints, c.order), req);
            e.Some? ==> e.value in c.endpoints.Values && e.value.route in c.routes
  {
    ScanFindsMembers(FileOrder(c.endpoints, c.order), req);
    FileOrderHoldsTheEndpoints(c.endpoints, c.order);
  }

  /** A matched route that neither hangs up nor uses the registry resolves unless it names the empty key. */
  lemma PlainRouteResolvesIff(c: Loaded, users: string -> Option<Endpoint>, ctx: string, toUser: string)
    requires ValidConfig(c) && ctx in c.routes && Matched(c.routes[ctx], toUser)
    requires !Chosen(c.routes[ctx], toUser).useRegistry && Chosen(c.routes[ctx], toUser).hangupCode <= 0
    ensures var route := Chosen(c.routes[ctx], toUser);
            && route.endpointName in c.endpoints
            && (Outgoing(c.endpoints, users, route, toUser).Some? <==> route.endpointName != "")
            && ("" !in c.endpoints ==>
                  Outgoing(c.endpoints, users, route, toUser) == Some(c.endpoints[route.endpointName]))
  {
    FirstMeaning(HitBy(toUser), c.routes[ctx]);
    var i: nat :| IsFirst(HitBy(toUser), c.routes[ctx], i) && c.routes[ctx][i] == Chosen(c.routes[ctx], toUser);
    assert NamesNothingUnknown(c.endpoints, c.routes[ctx][i]);
  }

  const EMPTY_TARGET := Route("", "", Any, false, 0)

  /** One endpoint, keyed by "", and one catch-all route to it. */
  function EmptyKeyFile(e: Endpoint): Raw {
    Raw(map["" := e.(route := "")], map[DEFAULT_CONTEXT := Some([EMPTY_TARGET])], [""])
  }

  lemma EmptyKeyLoads(e: Endpoint)
    ensures LoadedFrom(EmptyKeyFile(e))
         == Loaded(map["" := Defaulted("", e.(route := ""))], map[DEFAULT_CONTEXT := [EMPTY_TARGET]], [""])
  {
    assert DefaultedEndpoints(EmptyKeyFile(e).endpoints) == map["" := Defaulted("", e.(route := ""))];
  }

  /** A file that loads and validates and yet has a route that leads nowhere. */
  lemma EmptyKeyDeadEnds(e: Endpoint, users: string -> Option<Endpoint>, toUser: string)
    requires e.matchType == Unset && AuthSupported(e) && !e.contact.BadContact?
    ensures Loadable(EmptyKeyFile(e)) && ValidConfig(LoadedFrom(EmptyKeyFile(e)))
    ensures var c := LoadedFrom(EmptyKeyFile(e));
            && DEFAULT_CONTEXT in c.routes && Matched(c.routes[DEFAULT_CONTEXT], toUser)
            && Outgoing(c.endpoints, users, Chosen(c.routes[DEFAULT_CONTEXT], toUser), toUser) == None
  {
    EmptyKeyLoads(e);
    assert DynamicKeys(LoadedFrom(EmptyKeyFile(e)).endpoints) == {};
    FirstIs(HitBy(toUser), [EMPTY_TARGET], 0);
  }
}
