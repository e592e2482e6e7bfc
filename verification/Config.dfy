/**
 The configuration records of config.go. Library parses (IP values, the contact
 header) appear as their outcome.
 */
module Config {
  import opened Addresses
  import opened Text

  /** One entry of `match.values`: `netip.ParseAddr` succeeds, else `netip.ParsePrefix`, else neither. */
  datatype MatchValue = Exact(addr: IpAddr) | Cidr(prefix: IpPrefix) | Malformed(text: string)

  /** The values of `match.type` that the code distinguishes. */
  datatype MatchType = User | Ip | UserDynamic | Flow | Unset | OtherType(text: string)

  /** The values of a route's `match` that the code distinguishes. */
  datatype RouteMatch = ByPrefix | Any | OtherMatch(text: string)

  /** `auth.type`, trimmed and lower-cased. */
  datatype AuthKind = NoAuth | Digest | Bearer | OtherAuth(text: string)

  datatype Auth = Auth(kind: AuthKind, username: string, password: string)

  datatype ContactHeader = NoContact | ParsedContact(text: string) | BadContact(text: string)

  datatype Endpoint = Endpoint(
    name: string, matchType: MatchType, values: seq<MatchValue>, transport: string, auth: Auth, uri: string,
    route: string, mediaType: string, contact: ContactHeader, useRegistry: bool)

  datatype Route = Route(id: string, endpointName: string, how: RouteMatch, useRegistry: bool, hangupCode: int)

  const NO_ROUTE := Route("", "", OtherMatch(""), false, 0)

  /** An incoming request as the router reads it; `source` is None when it does not parse to an IP. */
  datatype Request = Request(fromUser: string, toUser: string, transport: string, source: Option<IpAddr>)

  function NormalizeTransport(t: string): string { ToLower(TrimSpace(t)) }

  /** The same letter, `r` in lower case. */
  predicate IsLowerOf(r: char, c: char) {
    !('A' <= r <= 'Z') && (r == c || ('A' <= c <= 'Z' && r as int - 'a' as int == c as int - 'A' as int))
  }

  /** A transport is its name without the blanks around it and without regard to case. */
  lemma NormalizeMeaning(t: string)
    ensures exists core :: IsCore(t, core) && |NormalizeTransport(t)| == |core|
                           && forall i :: 0 <= i < |core| ==> IsLowerOf(NormalizeTransport(t)[i], core[i])
  {
    TrimMeaning(t);
    var core := TrimSpace(t);
    assert forall i :: 0 <= i < |core| ==> IsLowerOf(NormalizeTransport(t)[i], core[i]);
  }

  function AuthType(a: Auth): AuthKind {
    if a.kind == NoAuth && (a.username != "" || a.password != "") then Digest else a.kind
  }
}
