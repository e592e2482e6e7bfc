/**
 REGISTER processing of registrar.go over the in-memory registry of registry.go
 (section 10.3 of RFC 3261), and the lookup of pbx.go that reads it.
 Durations are in nanoseconds, as Go's `time.Duration`.
 */
module Registrar {
  import opened Numbers
  import opened Scanning
  import opened Text

  const SECOND := 1_000_000_000
  const DEFAULT_EXPIRY := 3600 * SECOND
  const MIN_EXPIRY := 30 * SECOND

  /** `text` is the URI printed back. */
  datatype Uri = Uri(text: string, host: string, wildcard: bool)

  /** An expires value as written, and what `time.ParseDuration(text + "s")` makes of it. */
  datatype Spelled = Spelled(text: string, parsed: Option<int>)

  datatype Contact = Contact(address: Uri, expires: Option<Spelled>)

  datatype DigestError = NoError | NoChallenge | OtherError

  datatype DigestReply = DigestReply(error: DigestError, status: int)

  datatype AuthHeader = NoHeader | BearerToken | OtherScheme

  datatype BearerStore = NoBearerStore | BearerVerdict(ok: bool)

  /** `first` and `retry` are what the digest library answers to the first and to a second call. */
  datatype DigestStore = NoDigestStore | UnknownUser | DigestVerdict(first: DigestReply, retry: DigestReply)

  /**
   A request with the outcomes of the calls its authorization makes, which are made for the
   From user; a contact is None when it does not parse.
   */
  datatype Req = Req(
    complete: bool, recipientHost: string, fromUser: string, toUser: string, callId: string,
    contacts: seq<Option<Contact>>, expires: Option<Spelled>, source: string, transport: string,
    authHeader: AuthHeader, bearer: BearerStore, digest: DigestStore)

  datatype Binding = Binding(
    aor: string, callId: string, contacts: seq<Uri>, expiry: int, sourceAddr: string, transport: string)

  // ---- Authorization ----

  function DigestFinal(first: DigestReply, retry: DigestReply): DigestReply {
    if first.error == NoChallenge then retry else first
  }

  /** The status that refuses the request, or None when it may proceed. */
  function Refusal(req: Req): Option<int> {
    if req.authHeader == BearerToken then
      match req.bearer
      case NoBearerStore => Some(503)
      case BearerVerdict(ok) => if ok then None else Some(401)
    else
      match req.digest
      case NoDigestStore => Some(404)
      case UnknownUser => Some(404)
      case DigestVerdict(first, retry) =>
        var reply := DigestFinal(first, retry);
        if reply.error == NoError && reply.status == 200 then None else Some(reply.status)
  }

  /** The digest library reports an error only together with a refusing status. */
  predicate LibrarySound(req: Req) {
    req.digest.DigestVerdict? ==>
      && (req.digest.first.error != NoError ==> req.digest.first.status != 200)
      && (req.digest.retry.error != NoError ==> req.digest.retry.status != 200)
  }

  /** The token was accepted; or, without one, the digest library is satisfied, at the second try if it asks for one. */
  ghost predicate IsAuthorized(req: Req) {
    if req.authHeader == BearerToken then req.bearer == BearerVerdict(true)
    else
      && req.digest.DigestVerdict?
      && (if req.digest.first.error == NoChallenge then req.digest.retry == DigestReply(NoError, 200)
          else req.digest.first == DigestReply(NoError, 200))
  }

  /** The status of each refusal. */
  ghost predicate RefusedWith(req: Req, status: int) {
    if req.authHeader == BearerToken then
      (req.bearer == NoBearerStore && status == 503) || (req.bearer == BearerVerdict(false) && status == 401)
    else if !req.digest.DigestVerdict? then status == 404
    else
      !IsAuthorized(req)
      && status == (if req.digest.first.error == NoChallenge then req.digest.retry else req.digest.first).status
  }

  lemma RefusalMeaning(req: Req)
    ensures Refusal(req).None? <==> IsAuthorized(req)
    ensures Refusal(req).Some? ==> RefusedWith(req, Refusal(req).value)
  {
  }

  // ---- The decision on one request ----

  datatype Decision = Refuse(status: int) | Remove | Store(binding: Binding) {
    function Status(): int { if Refuse? then status else 200 }
  }

  /** The outcome of the contact loop. */
  datatype Gathered = Malformed | Gathered(expiry: int, kept: seq<Uri>)

  predicate IsZero(c: Contact) { c.expires.Some? && c.expires.value.text == "0" }

  predicate IsExplicit(c: Contact) { c.expires.Some? && c.expires.value.text != "" && !IsZero(c) }

  function Gather(contacts: seq<Contact>, expiry: int): Gathered {
    if contacts == [] then Gathered(expiry, [])
    else
      var front, c := Gather(contacts[..|contacts| - 1], expiry), contacts[|contacts| - 1];
      if front.Malformed? || IsZero(c) then front
      else if !IsExplicit(c) then front.(kept := front.kept + [c.address])
      else if c.expires.value.parsed.None? then Malformed
      else Gathered(Min(front.expiry, c.expires.value.parsed.value), front.kept + [c.address])
  }

  function Parsed(contacts: seq<Option<Contact>>): seq<Contact>
    requires forall i :: 0 <= i < |contacts| ==> contacts[i].Some?
  {
    seq(|contacts|, i requires 0 <= i < |contacts| => contacts[i].value)
  }

  predicate AllParse(req: Req) { forall i :: 0 <= i < |req.contacts| ==> req.contacts[i].Some? }

  /** The Expires header, or one hour; None when it does not parse. */
  function HeaderExpiry(req: Req): Option<int> {
    if req.expires.None? then Some(DEFAULT_EXPIRY) else req.expires.value.parsed
  }

  function Decide(hostname: string, req: Req): Decision {
    if !req.complete then Refuse(400)
    else if hostname != "" && req.recipientHost != hostname then Refuse(403)
    else if req.contacts == [] then Refuse(400)
    else if HeaderExpiry(req).None? then Refuse(400)
    else if Refusal(req).Some? then Refuse(Refusal(req).value)
    else if !AllParse(req) then Refuse(400)
    else
      var expiry, contacts := HeaderExpiry(req).value, Parsed(req.contacts);
      if expiry == 0 && |contacts| == 1 && contacts[0].address.wildcard then Remove
      else
        var g := Gather(contacts, expiry);
        if g.Malformed? then Refuse(400)
        else if g.expiry < MIN_EXPIRY then Refuse(423)
        else Store(Binding(req.toUser, req.callId, g.kept, g.expiry, req.source, req.transport))
  }

  // ---- What a stored binding holds ----

  ghost function IsKept(): Contact -> bool {
    (c: Contact) => c.expires.None? || c.expires.value.text != "0"
  }

  /** The contact brings an expiry of its own, which parses to `e` or not at all. */
  ghost predicate Brings(c: Contact, e: Option<int>) {
    c.expires.Some? && c.expires.value.text !in {"", "0"} && c.expires.value.parsed == e
  }

  function AddressesOf(contacts: seq<Contact>): seq<Uri> {
    seq(|contacts|, i requires 0 <= i < |contacts| => contacts[i].address)
  }

  /** `e` is the least of the header value and the explicit contact values. */
  ghost predicate IsLeastExpiry(e: int, header: int, contacts: seq<Contact>) {
    && e <= header
    && (forall c, own :: c in contacts && Brings(c, Some(own)) ==> e <= own)
    && (e == header || exists c :: c in contacts && Brings(c, Some(e)))
  }

  lemma {:induction false} GatherKeeps(contacts: seq<Contact>, header: int)
    ensures var g := Gather(contacts, header);
            && (g.Malformed? <==> exists c :: c in contacts && Brings(c, None))
            && (g.Gathered? ==> g.kept == AddressesOf(Filter(IsKept(), contacts)))
  {
    if contacts != [] {
      var n := |contacts| - 1;
      GatherKeeps(contacts[..n], header);
      assert contacts == contacts[..n] + [contacts[n]];
      assert contacts[n] in contacts;
    }
  }

  lemma {:induction false} GatherTakesLeast(contacts: seq<Contact>, header: int)
    requires Gather(contacts, header).Gathered?
    ensures IsLeastExpiry(Gather(contacts, header).expiry, header, contacts)
  {
    if contacts != [] {
      var n := |contacts| - 1;
      GatherTakesLeast(contacts[..n], header);
      assert forall c :: c in contacts <==> c in contacts[..n] || c == contacts[n] by {
        assert contacts == contacts[..n] + [contacts[n]];
      }
      var e := Gather(contacts, header).expiry;
      if e == Gather(contacts[..n], header).expiry != header {
        var c :| c in contacts[..n] && Brings(c, Some(e));
        assert c in contacts;
      } else if e != header {
        assert Brings(contacts[n], Some(e));
      }
    }
  }

  lemma GatherMeaning(contacts: seq<Contact>, header: int)
    ensures var g := Gather(contacts, header);
            g.Malformed? <==> exists c :: c in contacts && Brings(c, None)
    ensures var g := Gather(contacts, header);
            g.Gathered? ==>
              g.kept == AddressesOf(Filter(IsKept(), contacts)) && IsLeastExpiry(g.expiry, header, contacts)
  {
    GatherKeeps(contacts, header);
    if Gather(contacts, header).Gathered? {
      GatherTakesLeast(contacts, header);
    }
  }

  /** Non-zero contacts in order; the least of header (or one hour) and contact values; never under 30 seconds. */
  lemma StoredBindingMeaning(hostname: string, req: Req)
    requires Decide(hostname, req).Store?
    ensures AllParse(req) && (req.expires.Some? ==> req.expires.value.parsed.Some?)
    ensures var b := Decide(hostname, req).binding;
            && b.contacts == AddressesOf(Filter(IsKept(), Parsed(req.contacts)))
            && IsLeastExpiry(
                 b.expiry, if req.expires.Some? then req.expires.value.parsed.value else 3_600_000_000_000,
                 Parsed(req.contacts))
            && b.expiry >= 30_000_000_000
            && b.aor == req.toUser && b.callId == req.callId
            && b.sourceAddr == req.source && b.transport == req.transport
  {
    GatherMeaning(Parsed(req.contacts), HeaderExpiry(req).value);
  }

  /** An expiry of the contact's own parses and is at least 30 seconds. */
  ghost predicate LongEnough(c: Contact) {
    !Brings(c, None) && forall own :: Brings(c, Some(own)) ==> own >= 30_000_000_000
  }

  ghost predicate IsLoneWildcard(req: Req) {
    |req.contacts| == 1 && req.contacts[0].Some? && req.contacts[0].value.address.wildcard
  }

  ghost predicate IsRemoval(req: Req) {
    req.expires.Some? && req.expires.value.parsed == Some(0) && IsLoneWildcard(req)
  }

  /** Everything that is looked at before authorization. */
  ghost predicate InOrder(hostname: string, req: Req) {
    && req.complete && (hostname == "" || req.recipientHost == hostname)
    && req.contacts != [] && (req.expires.None? || req.expires.value.parsed.Some?)
  }

  /** Complete, for this host, well-formed and authorized. */
  ghost predicate Admissible(hostname: string, req: Req) {
    InOrder(hostname, req) && AllParse(req) && IsAuthorized(req)
  }

  /** The header, or the hour that stands for it, and every expiry of a contact's own are at least 30 seconds. */
  ghost predicate LastsLongEnough(req: Req)
    requires AllParse(req)
  {
    && (req.expires.None? || (req.expires.value.parsed.Some? && req.expires.value.parsed.value >= 30_000_000_000))
    && forall c :: c in Parsed(req.contacts) ==> LongEnough(c)
  }

  /** Accepted are exactly the admissible requests whose times are all long enough, and removals. */
  lemma AcceptedIff(hostname: string, req: Req)
    ensures !Decide(hostname, req).Refuse? <==>
              Admissible(hostname, req) && (IsRemoval(req) || LastsLongEnough(req))
  {
    RefusalMeaning(req);
    if AllParse(req) && HeaderExpiry(req).Some? {
      GatherMeaning(Parsed(req.contacts), HeaderExpiry(req).value);
      var g := Gather(Parsed(req.contacts), HeaderExpiry(req).value);
      if g.Gathered? && g.expiry < MIN_EXPIRY && HeaderExpiry(req).value >= MIN_EXPIRY {
        var c :| c in Parsed(req.contacts) && Brings(c, Some(g.expiry));
        assert !LongEnough(c);
      }
    }
  }

  lemma OkIsAuthorized(hostname: string, req: Req)
    ensures !Decide(hostname, req).Refuse? ==> IsAuthorized(req)
    ensures LibrarySound(req) && Decide(hostname, req).Status() == 200 ==> IsAuthorized(req)
  {
    RefusalMeaning(req);
  }

  /** Why a request is refused, in the order in which it is looked at. */
  lemma RefusalStatus(hostname: string, req: Req)
    requires Decide(hostname, req).Refuse?
    ensures var status := Decide(hostname, req).status;
            if !req.complete then status == 400
            else if hostname != "" && req.recipientHost != hostname then status == 403
            else if !InOrder(hostname, req) then status == 400
            else if !IsAuthorized(req) then RefusedWith(req, status)
            else if !AllParse(req) || exists c :: c in Parsed(req.contacts) && Brings(c, None) then status == 400
            else status == 423
  {
    RefusalMeaning(req);
    if AllParse(req) && HeaderExpiry(req).Some? {
      GatherMeaning(Parsed(req.contacts), HeaderExpiry(req).value);
    }
  }

  /**
   The binding is removed exactly by an admissible `Expires: 0` with the lone wildcard; with
   any other contacts `Expires: 0` is refused.
   */
  lemma RemovedIff(hostname: string, req: Req)
    ensures Decide(hostname, req) == Remove <==> Admissible(hostname, req) && IsRemoval(req)
    ensures HeaderExpiry(req) == Some(0) ==>
              (Decide(hostname, req).Refuse? <==> !Admissible(hostname, req) || !IsLoneWildcard(req))
  {
    AcceptedIff(hostname, req);
    RefusalMeaning(req);
  }

  // ---- Registry keys ----

  function RegId(user: string, host: string): string { user + "@" + host }

  /** For one host, different users have different keys. */
  lemma RegIdIsInjective(a: string, b: string, host: string)
    requires RegId(a, host) == RegId(b, host)
    ensures a == b
  {
    assert |RegId(a, host)| == |a| + 1 + |host| && |RegId(b, host)| == |b| + 1 + |host|;
    assert a == RegId(a, host)[..|a|] && b == RegId(b, host)[..|b|];
  }

  /** Users whose names hold no "@" keep their keys apart over all hosts. */
  lemma RegIdIsInjectiveInBoth(a: string, b: string, h1: string, h2: string)
    requires RegId(a, h1) == RegId(b, h2) && '@' !in a && '@' !in b
    ensures a == b && h1 == h2
  {
    var id := RegId(a, h1);
    assert id[|a|] == '@' && id[|b|] == '@';
    assert |a| == |b|;
    assert a == id[..|a|] && b == id[..|b|] && h1 == id[|a| + 1..] && h2 == id[|b| + 1..];
  }

  type Bindings = map<string, Binding>

  function Effect(m: Bindings, hostname: string, req: Req): Bindings {
    var d := Decide(hostname, req);
    var id := RegId(req.toUser, hostname);
    match d
    case Refuse(_) => m
    case Remove => m - {id}
    case Store(b) => m[id := b]
  }

  // ---- The lookup ----

  function Render(first: Uri, source: string, transport: string, webrtc: bool): string {
    if first.text == "" then ""
    else if HasSuffix(first.host, ".invalid") || webrtc then "sip:" + source + ";transport=" + transport
    else first.text
  }

  function ResolveRegistered(m: Bindings, hostname: string, user: string, webrtc: bool): string {
    var id := RegId(user, hostname);
    if id !in m || m[id].contacts == [] then ""
    else Render(m[id].contacts[0], m[id].sourceAddr, m[id].transport, webrtc)
  }

  // ---- Any sequence of requests ----

  function Run(hostname: string, reqs: seq<Req>): Bindings {
    if reqs == [] then map[] else Effect(Run(hostname, reqs[..|reqs| - 1]), hostname, reqs[|reqs| - 1])
  }

  /** The last request for this user that was answered 200. */
  ghost function LastAnswered(hostname: string, reqs: seq<Req>, user: string): Option<Req> {
    if reqs == [] then None
    else
      var last := reqs[|reqs| - 1];
      if last.toUser == user && Decide(hostname, last).Status() == 200 then Some(last)
      else LastAnswered(hostname, reqs[..|reqs| - 1], user)
  }

  /** The host of the contact cannot be resolved. */
  ghost predicate IsInvalidHost(host: string) { exists a :: IsMadeOf(host, a, ".invalid", "") }

  /** What that request alone says the user is reached at. */
  ghost function Reached(req: Option<Req>, webrtc: bool): string {
    if req.None? || !AllParse(req.value) || IsRemoval(req.value) then ""
    else
      var kept := Filter(IsKept(), Parsed(req.value.contacts));
      if kept == [] || kept[0].address.text == "" then ""
      else if IsInvalidHost(kept[0].address.host) || webrtc
      then "sip:" + req.value.source + ";transport=" + req.value.transport
      else kept[0].address.text
  }

  lemma ResolveAfterEffect(m: Bindings, hostname: string, req: Req, user: string, webrtc: bool)
    requires LibrarySound(req)
    ensures ResolveRegistered(Effect(m, hostname, req), hostname, user, webrtc)
         == if req.toUser == user && Decide(hostname, req).Status() == 200 then Reached(Some(req), webrtc)
            else ResolveRegistered(m, hostname, user, webrtc)
  {
    if RegId(req.toUser, hostname) == RegId(user, hostname) {
      RegIdIsInjective(req.toUser, user, hostname);
    }
    if Decide(hostname, req).Status() == 200 {
      if Decide(hostname, req).Store? {
        StoredBindingMeaning(hostname, req);
        var kept := Filter(IsKept(), Parsed(req.contacts));
        if kept != [] { SuffixMeaning(kept[0].address.host, ".invalid"); }
      }
    }
  }

  /** After any sequence of REGISTERs, a user is reached where the last one answered 200 says, and nowhere else. */
  lemma {:induction false} ResolutionFollowsLastAnswered(hostname: string, reqs: seq<Req>, user: string, webrtc: bool)
    requires forall i :: 0 <= i < |reqs| ==> LibrarySound(reqs[i])
    ensures ResolveRegistered(Run(hostname, reqs), hostname, user, webrtc)
         == Reached(LastAnswered(hostname, reqs, user), webrtc)
  {
    if reqs != [] {
      var n := |reqs| - 1;
      ResolutionFollowsLastAnswered(hostname, reqs[..n], user, webrtc);
      ResolveAfterEffect(Run(hostname, reqs[..n]), hostname, reqs[n], user, webrtc);
    }
  }

  // ---- Whose binding a request may change ----

  /** Whatever is registered, the request changes no binding but that of the user it was authorized as. */
  ghost predicate ChangesOnlyItsOwn(hostname: string, req: Req) {
    forall m: Bindings, user: string :: user != req.fromUser ==>
      BindingOf(Effect(m, hostname, req), hostname, user) == BindingOf(m, hostname, user)
  }

  function BindingOf(m: Bindings, hostname: string, user: string): Option<Binding> {
    if RegId(user, hostname) in m then Some(m[RegId(user, hostname)]) else None
  }

  /**
   Authorization is for the From user and the key is made of the To user, so a request stays
   with its own binding exactly when it is refused or names one user in both places.
   */
  lemma ChangesOnlyItsOwnIff(hostname: string, req: Req)
    ensures ChangesOnlyItsOwn(hostname, req) <==> Decide(hostname, req).Refuse? || req.fromUser == req.toUser
  {
    var d := Decide(hostname, req);
    if !d.Refuse? && req.fromUser != req.toUser {
      var m := RewrittenBy(hostname, req);
      assert !ChangesOnlyItsOwn(hostname, req);
    } else {
      forall m: Bindings, user: string | user != req.fromUser
        ensures BindingOf(Effect(m, hostname, req), hostname, user) == BindingOf(m, hostname, user)
      {
        if RegId(user, hostname) == RegId(req.toUser, hostname) {
          RegIdIsInjective(user, req.toUser, hostname);
        }
      }
    }
  }

  /** Bindings in which an accepted request changes that of the user it names in To. */
  lemma RewrittenBy(hostname: string, req: Req) returns (m: Bindings)
    requires !Decide(hostname, req).Refuse?
    ensures BindingOf(Effect(m, hostname, req), hostname, req.toUser) != BindingOf(m, hostname, req.toUser)
  {
    m := if Decide(hostname, req).Remove? then
        map[RegId(req.toUser, hostname) := Binding(req.toUser, "", [], MIN_EXPIRY, "", "")]
      else map[];
  }

  /** An accepted request authorized as one user that stores a binding for another. */
  lemma AnothersBindingIsWritten(hostname: string, caller: string, victim: string) returns (req: Req)
    requires caller != victim
    ensures req.fromUser == caller && req.toUser == victim && !ChangesOnlyItsOwn(hostname, req)
  {
    var contact := Contact(Uri("sip:x", "x", false), None);
    req := Req(true, hostname, caller, victim, "1", [Some(contact)], None, "", "", BearerToken, BearerVerdict(true),
               NoDigestStore);
    assert Parsed(req.contacts) == [contact] && [contact][..0] == [];
    assert Gather([contact], DEFAULT_EXPIRY) == Gathered(DEFAULT_EXPIRY, [contact.address]);
    ChangesOnlyItsOwnIff(hostname, req);
  }

  /** The last request for the user that was authorized as that user and answered 200. */
  ghost function LastOwn(hostname: string, reqs: seq<Req>, user: string): Option<Req> {
    if reqs == [] then None
    else
      var last := reqs[|reqs| - 1];
      if last.fromUser == user && last.toUser == user && Decide(hostname, last).Status() == 200 then Some(last)
      else LastOwn(hostname, reqs[..|reqs| - 1], user)
  }

  /** If no accepted request reaches for another's binding, every user is reached where their own last one says. */
  lemma {:induction false} OwnRequestsDecide(hostname: string, reqs: seq<Req>, user: string, webrtc: bool)
    requires forall i :: 0 <= i < |reqs| ==> LibrarySound(reqs[i]) && ChangesOnlyItsOwn(hostname, reqs[i])
    ensures ResolveRegistered(Run(hostname, reqs), hostname, user, webrtc)
         == Reached(LastOwn(hostname, reqs, user), webrtc)
  {
    if reqs != [] {
      var n := |reqs| - 1;
      OwnRequestsDecide(hostname, reqs[..n], user, webrtc);
      ResolveAfterEffect(Run(hostname, reqs[..n]), hostname, reqs[n], user, webrtc);
      ChangesOnlyItsOwnIff(hostname, reqs[n]);
    }
  }

  // ---- The objects ----

  class RegistryMemory {
    var m: Bindings

    constructor ()
      ensures m == map[]
    {
      m := map[];
    }

    method RegisterBindingSet(id: string, rec: Binding)
      modifies this
      ensures m == old(m)[id := rec]
    {
      m := m[id := rec];
    }

    method RegisterBindingDelete(id: string)
      modifies this
      ensures m == old(m) - {id}
    {
      m := m - {id};
    }

    method RegisterBindingGet(id: string) returns (r: Option<Binding>)
      ensures r == if id in m then Some(m[id]) else None
    {
      r := if id in m then Some(m[id]) else None;
    }
  }

  /** Statuses sent while authorizing: none when it succeeds, exactly one when it does not. */
  method AuthorizeRegister(req: Req) returns (ok: bool, responses: seq<int>)
    ensures ok <==> Refusal(req).None?
    ensures responses == if ok then [] else [Refusal(req).value]
    ensures ok <==> IsAuthorized(req)
    ensures !ok ==> |responses| == 1 && RefusedWith(req, responses[0])
  {
    RefusalMeaning(req);
    responses := [];
    if req.authHeader == BearerToken {
      if req.bearer.NoBearerStore? {
        responses := responses + [503];
        return false, responses;
      }
      if !req.bearer.ok {
        responses := responses + [401];
        return false, responses;
      }
      return true, responses;
    }
    if req.digest.NoDigestStore? {
      responses := responses + [404];
      return false, responses;
    }
    if req.digest.UnknownUser? {
      responses := responses + [404];
      return false, responses;
    }
    var res := req.digest.first;
    if res.error == NoChallenge {
      res := req.digest.retry;
    }
    if res.error != NoError {
      responses := responses + [res.status];
      return false, responses;
    }
    if res.status != 200 {
      responses := responses + [res.status];
      return false, responses;
    }
    return true, responses;
  }

  method GatherContacts(hdrs: seq<Contact>, headerExpiry: int) returns (g: Gathered)
    ensures g == Gather(hdrs, headerExpiry)
  {
    var expiry, contacts := headerExpiry, [];
    for i := 0 to |hdrs|
      invariant Gather(hdrs[..i], headerExpiry) == Gathered(expiry, contacts)
    {
      assert hdrs[..i + 1][..i] == hdrs[..i];
      var h := hdrs[i];
      var text := if h.expires.Some? then h.expires.value.text else "";
      if text == "0" {
        continue;
      }
      if h.expires.Some? && text != "" {
        if h.expires.value.parsed.None? {
          GatherStaysMalformed(hdrs, i + 1, headerExpiry);
          return Malformed;
        }
        expiry := Min(expiry, h.expires.value.parsed.value);
      }
      contacts := contacts + [h.address];
    }
    assert hdrs[..|hdrs|] == hdrs;
    return Gathered(expiry, contacts);
  }

  lemma {:induction false} GatherStaysMalformed(contacts: seq<Contact>, n: nat, expiry: int)
    requires n <= |contacts| && Gather(contacts[..n], expiry).Malformed?
    ensures Gather(contacts, expiry).Malformed?
    decreases |contacts|
  {
    if n == |contacts| {
      assert contacts[..n] == contacts;
    } else {
      assert contacts[..|contacts| - 1][..n] == contacts[..n];
      GatherStaysMalformed(contacts[..|contacts| - 1], n, expiry);
    }
  }

  method ParseContacts(raw: seq<Option<Contact>>) returns (hdrs: Option<seq<Contact>>)
    ensures hdrs.Some? <==> forall i :: 0 <= i < |raw| ==> raw[i].Some?
    ensures hdrs.Some? ==> hdrs.value == Parsed(raw)
  {
    var parsed: seq<Contact> := [];
    for i := 0 to |raw|
      invariant forall j :: 0 <= j < i ==> raw[j].Some?
      invariant |parsed| == i && forall j :: 0 <= j < i ==> parsed[j] == raw[j].value
    {
      if raw[i].None? {
        return None;
      }
      parsed := parsed + [raw[i].value];
    }
    assert parsed == Parsed(raw);
    return Some(parsed);
  }

  /** Every path sends exactly one response, and the registry changes only with a 200. */
  method RegisterHandler(hostname: string, registry: RegistryMemory, req: Req) returns (responses: seq<int>)
    modifies registry
    ensures |responses| == 1 && responses[0] == Decide(hostname, req).Status()
    ensures registry.m == Effect(old(registry.m), hostname, req)
    ensures registry.m != old(registry.m) ==> responses == [200] && IsAuthorized(req)
    ensures LibrarySound(req) && responses == [200] ==> IsAuthorized(req)
  {
    OkIsAuthorized(hostname, req);
    responses := [];
    if !req.complete {
      return responses + [400];
    }
    if hostname != "" && req.recipientHost != hostname {
      return responses + [403];
    }
    if |req.contacts| == 0 {
      return responses + [400];
    }
    var expiry := DEFAULT_EXPIRY;
    if req.expires.Some? {
      if req.expires.value.parsed.None? {
        return responses + [400];
      }
      expiry := req.expires.value.parsed.value;
    }
    var ok, sent := AuthorizeRegister(req);
    responses := responses + sent;
    if !ok {
      return;
    }
    var hdrs := ParseContacts(req.contacts);
    if hdrs.None? {
      return responses + [400];
    }
    var regId := RegId(req.toUser, hostname);
    if expiry == 0 && |hdrs.value| == 1 && hdrs.value[0].address.wildcard {
      registry.RegisterBindingDelete(regId);
      return responses + [200];
    }
    var g := GatherContacts(hdrs.value, expiry);
    if g.Malformed? {
      return responses + [400];
    }
    if g.expiry < MIN_EXPIRY {
      return responses + [423];
    }
    registry.RegisterBindingSet(regId, Binding(req.toUser, req.callId, g.kept, g.expiry, req.source, req.transport));
    return responses + [200];
  }

  method EndpointResolveRegisteredURI(hostname: string, registry: RegistryMemory, user: string, webrtc: bool)
    returns (uri: string)
    ensures uri == ResolveRegistered(registry.m, hostname, user, webrtc)
  {
    var binding := registry.RegisterBindingGet(RegId(user, hostname));
    if binding.None? {
      return "";
    }
    if |binding.value.contacts| == 0 {
      return "";
    }
    var contUri := binding.value.contacts[0];
    var cont := contUri.text;
    if cont == "" {
      return "";
    }
    if HasSuffix(contUri.host, ".invalid") || webrtc {
      cont := "sip:" + binding.value.sourceAddr + ";transport=" + binding.value.transport;
    }
    return cont;
  }
}
