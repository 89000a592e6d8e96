/** The ACME client as the objects that change: the published challenges and the client itself.
    Every method does what its function in AcmeRuns says, so what holds of all runs there holds
    of `ObtainCertificateHttp01`. */
module AcmeHttp01 {
  import opened Common
  import opened Acme
  import opened AcmeRuns

  class ChallengeStore {
    var tokens: map<string, string>

    constructor ()
      ensures tokens == map[]
    {
      tokens := map[];
    }

    method Publish(token: string, keyAuthorization: string)
      modifies this
      ensures tokens == old(tokens)[token := keyAuthorization]
    {
      tokens := tokens[token := keyAuthorization];
    }

    method Remove(token: string)
      modifies this
      ensures tokens == old(tokens) - {token}
    {
      tokens := tokens - {token};
    }
  }

  class AcmeClient {
    const world: World
    const directory: Directory
    const keyAuthorization: string -> string
    var kid: Option<string>
    var nonce: Option<Nonce>
    /** All traffic so far, and what was published and removed in between. */
    var trace: Trace

    ghost function Abs(): Client
      reads this
    {
      Client(kid, nonce, trace)
    }

    constructor (world: World, directory: Directory, keyAuthorization: string -> string)
      ensures Abs() == Client(None, None, [])
      ensures this.world == world && this.directory == directory && this.keyAuthorization == keyAuthorization
    {
      this.world, this.directory, this.keyAuthorization := world, directory, keyAuthorization;
      kid, nonce, trace := None, None, [];
    }

    /** The stored nonce, or a new one from newNonce. */
    method TakeNonce() returns (r: Result<Nonce, Failure>)
      modifies this`nonce, this`trace
      ensures Outcome(Abs(), r) == TakeNonceSpec(world, old(Abs()))
      ensures nonce.None?
    {
      if nonce.Some? {
        r, nonce := Ok(nonce.value), None;
      } else {
        var h := world.head(|trace|);
        trace := trace + [Head(h)];
        r := if h.Some? then Ok(h.value) else Err(NoNonce);
      }
    }

    /** Sends one POST with the nonce `n`; the answer's nonce is stored whatever its status. */
    method Send(url: string, request: Request, n: Nonce) returns (r: Result<Reply, Failure>)
      modifies this`nonce, this`trace
      ensures Outcome(Abs(), r) == SendSpec(world, old(Abs()), url, request, n)
    {
      var reply := world.post(|trace|);
      trace := trace + [Post(url, n, kid, request, reply)];
      if reply.Answer? && reply.nonce.Some? { nonce := reply.nonce; }
      r := if reply.Unreachable? then Err(Lost) else Ok(reply);
    }

    method PostJws(url: string, request: Request) returns (r: Result<Reply, Failure>)
      modifies this`nonce, this`trace
      ensures Outcome(Abs(), r) == PostJwsSpec(world, old(Abs()), url, request)
    {
      var n := TakeNonce();
      if n.Err? { return Err(NoNonce); }
      if !world.signs(|trace|) { return Err(NoSignature); }
      var reply := Send(url, request, n.value);
      if reply.Err? { return Err(reply.error); }
      if reply.value.text.None? || !reply.value.json { return Err(Garbled); }
      if !reply.value.success { return Err(Refused); }
      return Ok(reply.value);
    }

    method CreateAccount() returns (r: Result<(), Failure>)
      modifies this
      ensures Outcome(Abs(), r) == CreateAccountSpec(world, directory, old(Abs()))
    {
      var p := PostJws(directory.newAccount, NewAccount);
      if p.Err? { return Err(p.error); }
      if p.value.location.None? { return Err(Unparsed); }
      kid := p.value.location;
      return Ok(());
    }

    method CreateOrder() returns (r: Result<(AcmeOrder, string), Failure>)
      modifies this`nonce, this`trace
      ensures Outcome(Abs(), r) == CreateOrderSpec(world, directory, old(Abs()))
    {
      var p := PostJws(directory.newOrder, NewOrder);
      if p.Err? { return Err(p.error); }
      if p.value.location.None? || p.value.order.None? { return Err(Unparsed); }
      return Ok((p.value.order.value, p.value.location.value));
    }

    method GetAuthorization(url: string) returns (r: Result<AcmeAuthorization, Failure>)
      modifies this`nonce, this`trace
      ensures Outcome(Abs(), r) == GetAuthorizationSpec(world, old(Abs()), url)
    {
      var p := PostJws(url, Fetch);
      if p.Err? { return Err(p.error); }
      if p.value.authorization.None? { return Err(Unparsed); }
      return Ok(p.value.authorization.value);
    }

    method GetOrder(url: string) returns (r: Result<AcmeOrder, Failure>)
      modifies this`nonce, this`trace
      ensures Outcome(Abs(), r) == GetOrderSpec(world, old(Abs()), url)
    {
      var p := PostJws(url, Fetch);
      if p.Err? { return Err(p.error); }
      if p.value.order.None? { return Err(Unparsed); }
      return Ok(p.value.order.value);
    }

    method PollAuthorizationUntilValid(url: string, maxAttempts: nat) returns (r: Result<(), Failure>)
      modifies this`nonce, this`trace
      ensures Outcome(Abs(), r) == PollAuthorizationSpec(world, old(Abs()), url, maxAttempts)
    {
      var attempt := 0;
      while attempt < maxAttempts
        invariant 0 <= attempt <= maxAttempts
        invariant PollAuthorizationSpec(world, Abs(), url, maxAttempts - attempt) ==
                  PollAuthorizationSpec(world, old(Abs()), url, maxAttempts)
      {
        var a := GetAuthorization(url);
        attempt := attempt + 1;
        if a.Err? { return Err(a.error); }
        if a.value.status == VALID { return Ok(()); }
        if a.value.status != "pending" { return Err(BadStatus); }
      }
      return Err(TimedOut);
    }

    method PollOrderUntilValid(url: string, maxAttempts: nat) returns (r: Result<AcmeOrder, Failure>)
      modifies this`nonce, this`trace
      ensures Outcome(Abs(), r) == PollOrderSpec(world, old(Abs()), url, maxAttempts)
    {
      var attempt := 0;
      while attempt < maxAttempts
        invariant 0 <= attempt <= maxAttempts
        invariant PollOrderSpec(world, Abs(), url, maxAttempts - attempt) ==
                  PollOrderSpec(world, old(Abs()), url, maxAttempts)
      {
        var o := GetOrder(url);
        attempt := attempt + 1;
        if o.Err? { return Err(o.error); }
        if o.value.status == VALID { return Ok(o.value); }
        if !OrderWaits(o.value.status) { return Err(BadStatus); }
      }
      return Err(TimedOut);
    }

    method FinalizeOrder(order: AcmeOrder) returns (r: Result<(AcmeOrder, string), Failure>)
      modifies this`nonce, this`trace
      ensures Outcome(Abs(), r) == FinalizeSpec(world, old(Abs()), order)
    {
      if world.keyPem.None? { return Err(NoSignature); }
      var p := PostJws(order.finalize, Finalize(order));
      if p.Err? { return Err(p.error); }
      if p.value.order.None? { return Err(Unparsed); }
      return Ok((p.value.order.value, world.keyPem.value));
    }

    /** The status of the answer is not looked at: any readable body counts as the certificate. */
    method DownloadCertificate(url: string) returns (r: Result<string, Failure>)
      modifies this`nonce, this`trace
      ensures Outcome(Abs(), r) == DownloadSpec(world, old(Abs()), url)
    {
      var n := TakeNonce();
      if n.Err? { return Err(NoNonce); }
      if kid.None? { return Err(NoKid); }
      if !world.signs(|trace|) { return Err(NoSignature); }
      var reply := Send(url, Download, n.value);
      if reply.Err? { return Err(reply.error); }
      if reply.value.text.None? { return Err(Garbled); }
      return Ok(reply.value.text.value);
    }

    /** Writes a change of the challenge store into the trace. */
    method Note(e: Event)
      modifies this`trace
      ensures trace == old(trace) + [e]
    {
      trace := trace + [e];
    }
  }

  // ---------------------------------------------------------------- obtaining a certificate

  method PublishChallenge(client: AcmeClient, challenges: ChallengeStore, token: string,
                          ghost base: map<string, string>)
    requires challenges.tokens == StoreAfter(base, client.trace)
    modifies client`trace, challenges
    ensures challenges.tokens == StoreAfter(base, client.trace)
    ensures client.trace == old(client.trace) + [Publish(token, client.keyAuthorization(token))]
  {
    PublishOne(base, client.trace, token, client.keyAuthorization(token));
    challenges.Publish(token, client.keyAuthorization(token));
    client.Note(Publish(token, client.keyAuthorization(token)));
  }

  method RemoveChallenge(client: AcmeClient, challenges: ChallengeStore, token: string, ghost base: map<string, string>)
    requires challenges.tokens == StoreAfter(base, client.trace)
    modifies client`trace, challenges
    ensures challenges.tokens == StoreAfter(base, client.trace)
    ensures client.trace == old(client.trace) + [Unpublish(token)]
  {
    UnpublishOne(base, client.trace, token);
    challenges.Remove(token);
    client.Note(Unpublish(token));
  }

  method RespondAndPoll(client: AcmeClient, challengeUrl: string, token: string,
                        url: string) returns (r: Result<(), Failure>)
    modifies client`nonce, client`trace
    ensures Outcome(client.Abs(), r) == RespondSpec(client.world, old(client.Abs()), challengeUrl, token, url)
  {
    var responded := client.PostJws(challengeUrl, Respond(token));
    if responded.Err? { return Err(responded.error); }
    r := client.PollAuthorizationUntilValid(url, MAX_ATTEMPTS);
  }

  /** Publish, respond, poll, remove. A failure after the publication leaves that one token behind. */
  method AnswerChallenge(client: AcmeClient, challenges: ChallengeStore, challengeUrl: string, token: string,
                         url: string, ghost base: map<string, string>)
    returns (r: Result<(), Failure>)
    requires challenges.tokens == StoreAfter(base, client.trace)
    modifies client`nonce, client`trace, challenges
    ensures challenges.tokens == StoreAfter(base, client.trace)
    ensures Outcome(client.Abs(), r) ==
            AnswerSpec(client.world, client.keyAuthorization, old(client.Abs()), challengeUrl, token, url)
  {
    PublishChallenge(client, challenges, token, base);
    RespondTraffic(client.world, client.Abs(), challengeUrl, token, url);
    r := RespondAndPoll(client, challengeUrl, token, url);
    if r.Err? { return; }
    RemoveChallenge(client, challenges, token, base);
  }

  /** The body of the loop over the authorizations: find the challenge and answer it. */
  method Authorize(client: AcmeClient, challenges: ChallengeStore, url: string, ghost base: map<string, string>)
    returns (r: Result<(), Failure>)
    requires challenges.tokens == StoreAfter(base, client.trace)
    modifies client`nonce, client`trace, challenges
    ensures challenges.tokens == StoreAfter(base, client.trace)
    ensures Outcome(client.Abs(), r) == AuthorizeSpec(client.world, client.keyAuthorization, old(client.Abs()), url)
  {
    GetAuthorizationTraffic(client.world, client.Abs(), url);
    var a := client.GetAuthorization(url);
    if a.Err? { return Err(a.error); }
    var c := FindHttp01(a.value.challenges);
    if c.None? || c.value.token.None? { return Err(NoChallenge); }
    r := AnswerChallenge(client, challenges, c.value.url, c.value.token.value, url, base);
  }

  method AuthorizeAll(client: AcmeClient, challenges: ChallengeStore, urls: seq<string>,
                      ghost base: map<string, string>)
    returns (r: Result<(), Failure>)
    requires challenges.tokens == StoreAfter(base, client.trace)
    modifies client`nonce, client`trace, challenges
    ensures challenges.tokens == StoreAfter(base, client.trace)
    ensures Outcome(client.Abs(), r) == AuthorizeAllSpec(client.world, client.keyAuthorization, old(client.Abs()), urls)
  {
    for i := 0 to |urls|
      invariant challenges.tokens == StoreAfter(base, client.trace)
      invariant AuthorizeAllSpec(client.world, client.keyAuthorization, client.Abs(), urls[i..]) ==
                AuthorizeAllSpec(client.world, client.keyAuthorization, old(client.Abs()), urls)
    {
      assert urls[i..][1..] == urls[i + 1..];
      r := Authorize(client, challenges, urls[i], base);
      if r.Err? { return; }
    }
    return Ok(());
  }

  method RegisterAndOrder(client: AcmeClient, ghost base: map<string, string>)
    returns (r: Result<(AcmeOrder, string), Failure>)
    modifies client
    ensures StoreAfter(base, client.trace) == StoreAfter(base, old(client.trace))
    ensures Outcome(client.Abs(), r) == OrderSpec(client.world, client.directory, old(client.Abs()))
  {
    ghost var before := client.trace;
    OrderTraffic(client.world, client.directory, client.Abs());
    var account := client.CreateAccount();
    if account.Err? { return Err(account.error); }
    r := client.CreateOrder();
    TrafficKeepsStore(base, before, client.trace, 2);
  }

  /** Register, order, authorize. */
  method Prepare(client: AcmeClient, challenges: ChallengeStore)
    returns (r: Result<(AcmeOrder, string), Failure>)
    requires client.Abs() == Client(None, None, [])
    modifies client, challenges
    ensures challenges.tokens == StoreAfter(old(challenges.tokens), client.trace)
    ensures Outcome(client.Abs(), r) == PrepareSpec(client.world, client.directory, client.keyAuthorization)
  {
    ghost var base := challenges.tokens;
    assert StoreAfter(base, []) == base;
    var created := RegisterAndOrder(client, base);
    if created.Err? { return created; }
    var authorized := AuthorizeAll(client, challenges, created.value.0.authorizations, base);
    if authorized.Err? { return Err(authorized.error); }
    return created;
  }

  /** Finalize, poll, download. */
  method FinishOrder(client: AcmeClient, order: AcmeOrder,
                     orderUrl: string) returns (r: Result<(string, string), Failure>)
    modifies client`nonce, client`trace
    ensures Outcome(client.Abs(), r) == FinishSpec(client.world, old(client.Abs()), order, orderUrl)
  {
    var finalized := client.FinalizeOrder(order);
    if finalized.Err? { return Err(finalized.error); }
    var issued := client.PollOrderUntilValid(orderUrl, MAX_ATTEMPTS);
    if issued.Err? { return Err(issued.error); }
    if issued.value.certificate.None? { return Err(NoCertificate); }
    var pem := client.DownloadCertificate(issued.value.certificate.value);
    if pem.Err? { return Err(pem.error); }
    return Ok((pem.value, finalized.value.1));
  }

  /** `obtain_certificate_http01`, with the trace it leaves. Whatever the server does: every
      nonce was freshly handed out, every POST was permitted, the POSTs are bounded by the number
      of authorizations, and the challenge store is what it was, but for the tokens of this run,
      of which a success leaves none and a failure at most one. */
  method ObtainCertificateHttp01(
    world: World, directory: Option<Directory>, keyAuthorization: string -> string, challenges: ChallengeStore)
    returns (r: Result<(string, string), Failure>, tr: Trace)
    modifies challenges
    ensures directory.None? ==> r == Err(NoDirectory) && tr == []
    ensures directory.Some? ==>
      var o := ObtainSpec(world, directory.value, keyAuthorization); r == o.result && tr == o.client.trace
    ensures Sourced(tr) && (directory.Some? ==> Orderly(tr, directory.value, keyAuthorization))
    ensures challenges.tokens == StoreAfter(old(challenges.tokens), tr)
    ensures if r.Ok? then Published(tr) == map[] && Downloaded(tr, r.value.0) else AtMostOne(Published(tr))
    ensures WithinBudget(tr)
  {
    if directory.None? { return Err(NoDirectory), []; }
    ObtainSafe(world, directory.value, keyAuthorization);
    var client := new AcmeClient(world, directory.value, keyAuthorization);
    var prepared := Prepare(client, challenges);
    if prepared.Err? { return Err(prepared.error), client.trace; }
    FinishTraffic(world, client.Abs(), prepared.value.0, prepared.value.1);
    r := FinishOrder(client, prepared.value.0, prepared.value.1);
    return r, client.trace;
  }
}
