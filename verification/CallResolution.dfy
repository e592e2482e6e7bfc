/** The outbound URI of pbx.go: route, endpoint and registry put together. */
module CallResolution {
  import opened Config
  import opened Registrar
  import opened Routers
  import opened Text

  function ResolveOutboundURI(m: Bindings, hostname: string, outboundDialUri: string, e: Endpoint): string {
    var webrtc := e.mediaType == "webrtc";
    if e.useRegistry then ResolveRegistered(m, hostname, e.name, webrtc)
    else if e.uri != "" then e.uri
    else if e.matchType == User then ResolveRegistered(m, hostname, e.name, webrtc)
    else if e.matchType == Flow then "flow"
    else outboundDialUri
  }

  /** `to` is the endpoint the route leads to, if any. */
  function LoadOutboundURI(m: Bindings, hostname: string, outboundDialUri: string, to: Option<Endpoint>): string {
    if to.None? then outboundDialUri else ResolveOutboundURI(m, hostname, outboundDialUri, to.value)
  }

  /**
   A call over a registry route is dialled where the callee's own last accepted
   REGISTER says, whatever else was configured or registered.
   */
  lemma RegistryRouteDialsTheCallee(
    endpoints: map<string, Endpoint>, es: seq<Endpoint>, route: Route, toUser: string, hostname: string,
    reqs: seq<Req>, outboundDialUri: string)
    requires route.useRegistry && forall i :: 0 <= i < |reqs| ==> LibrarySound(reqs[i])
    ensures var to := Outgoing(endpoints, UserLookup(es), route, toUser);
            LoadOutboundURI(Run(hostname, reqs), hostname, outboundDialUri, to) ==
            if to.None? then outboundDialUri
            else Reached(LastAnswered(hostname, reqs, toUser), to.value.mediaType == "webrtc")
  {
    var to := Outgoing(endpoints, UserLookup(es), route, toUser);
    RegistryRouteNamesTheCallee(endpoints, es, route, toUser);
    if to.Some? {
      ResolutionFollowsLastAnswered(hostname, reqs, toUser, to.value.mediaType == "webrtc");
    }
  }

  /**
   Any other call goes to the endpoint's own URI if it has one, else to a user's registered
   address, else to the flow, else to the general outbound address.
   */
  lemma PlainEndpointIsDialled(e: Endpoint, hostname: string, reqs: seq<Req>, outboundDialUri: string)
    requires !e.useRegistry && forall i :: 0 <= i < |reqs| ==> LibrarySound(reqs[i])
    ensures var uri := LoadOutboundURI(Run(hostname, reqs), hostname, outboundDialUri, Some(e));
            && (e.uri != "" ==> uri == e.uri)
            && (e.uri == "" && e.matchType == User ==>
                  uri == Reached(LastAnswered(hostname, reqs, e.name), e.mediaType == "webrtc"))
            && (e.uri == "" && e.matchType == Flow ==> uri == "flow")
            && (e.uri == "" && e.matchType !in {User, Flow} ==> uri == outboundDialUri)
  {
    ResolutionFollowsLastAnswered(hostname, reqs, e.name, e.mediaType == "webrtc");
  }
}
