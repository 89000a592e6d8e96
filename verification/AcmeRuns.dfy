/** The ACME client as functions of its state and of what the server answers, from one POST up to
    the whole order, and what every run keeps. */
module AcmeRuns {
  import opened Common
  import opened Acme

  /** Entry `i` is the first http-01 challenge of the list. */
  predicate FirstHttp01(challenges: seq<AcmeChallenge>, i: nat) {
    && i < |challenges|
    && challenges[i].challengeType == "http-01"
    && forall j :: 0 <= j < i ==> challenges[j].challengeType != "http-01"
  }

  /** The first http-01 challenge, if there is one. */
  function FindHttp01(challenges: seq<AcmeChallenge>): (r: Option<AcmeChallenge>)
    ensures r.Some? ==> exists i: nat :: FirstHttp01(challenges, i) && challenges[i] == r.value
    ensures r.None? ==> forall c :: c in challenges ==> c.challengeType != "http-01"
  {
    if challenges == [] then None
    else if challenges[0].challengeType == "http-01" then
      assert FirstHttp01(challenges, 0);
      Some(challenges[0])
    else
      var r := FindHttp01(challenges[1..]);
      assert r.Some? ==> exists i: nat :: FirstHttp01(challenges, i) && challenges[i] == r.value by {
        if r.Some? {
          var i: nat :| FirstHttp01(challenges[1..], i) && challenges[1..][i] == r.value;
          assert challenges[1..][i] == challenges[i + 1];
          assert forall j :: 0 < j < i + 1 ==> challenges[1..][j - 1] == challenges[j];
          assert FirstHttp01(challenges, i + 1);
        }
      }
      r
  }

  /** The state of a client between its calls. */
  datatype Client = Client(kid: Option<string>, nonce: Option<Nonce>, trace: Trace)

  datatype Outcome<T> = Outcome(client: Client, result: Result<T, Failure>)

  function TakeNonceSpec(w: World, c: Client): Outcome<Nonce> {
    if c.nonce.Some? then Outcome(c.(nonce := None), Ok(c.nonce.value))
    else
      var h := w.head(|c.trace|);
      Outcome(c.(trace := c.trace + [Head(h)]), if h.Some? then Ok(h.value) else Err(NoNonce))
  }

  /** One POST; the nonce of its answer is stored whatever the status. */
  function SendSpec(w: World, c: Client, url: string, request: Request, n: Nonce): Outcome<Reply> {
    var reply := w.post(|c.trace|);
    Outcome(Client(c.kid, if reply.Answer? && reply.nonce.Some? then reply.nonce else c.nonce,
                   c.trace + [Post(url, n, c.kid, request, reply)]),
            if reply.Unreachable? then Err(Lost) else Ok(reply))
  }

  /** What `post_jws` makes of an answer: the body must be JSON before the status is looked at. */
  function ReadJson(reply: Reply): Result<Reply, Failure> {
    if reply.Unreachable? then Err(Lost)
    else if reply.text.None? || !reply.json then Err(Garbled)
    else if !reply.success then Err(Refused)
    else Ok(reply)
  }

  function PostJwsSpec(w: World, c: Client, url: string, request: Request): Outcome<Reply> {
    var t := TakeNonceSpec(w, c);
    if t.result.Err? then Outcome(t.client, Err(NoNonce))
    else if !w.signs(|t.client.trace|) then Outcome(t.client, Err(NoSignature))
    else
      var sent := SendSpec(w, t.client, url, request, t.result.value);
      Outcome(sent.client, ReadJson(w.post(|t.client.trace|)))
  }

  function CreateAccountSpec(w: World, d: Directory, c: Client): Outcome<()> {
    var p := PostJwsSpec(w, c, d.newAccount, NewAccount);
    if p.result.Err? then Outcome(p.client, Err(p.result.error))
    else if p.result.value.location.None? then Outcome(p.client, Err(Unparsed))
    else Outcome(p.client.(kid := p.result.value.location), Ok(()))
  }

  function CreateOrderSpec(w: World, d: Directory, c: Client): Outcome<(AcmeOrder, string)> {
    var p := PostJwsSpec(w, c, d.newOrder, NewOrder);
    if p.result.Err? then Outcome(p.client, Err(p.result.error))
    else if p.result.value.location.None? || p.result.value.order.None? then Outcome(p.client, Err(Unparsed))
    else Outcome(p.client, Ok((p.result.value.order.value, p.result.value.location.value)))
  }

  function GetAuthorizationSpec(w: World, c: Client, url: string): Outcome<AcmeAuthorization> {
    var p := PostJwsSpec(w, c, url, Fetch);
    if p.result.Err? then Outcome(p.client, Err(p.result.error))
    else if p.result.value.authorization.None? then Outcome(p.client, Err(Unparsed))
    else Outcome(p.client, Ok(p.result.value.authorization.value))
  }

  function GetOrderSpec(w: World, c: Client, url: string): Outcome<AcmeOrder> {
    var p := PostJwsSpec(w, c, url, Fetch);
    if p.result.Err? then Outcome(p.client, Err(p.result.error))
    else if p.result.value.order.None? then Outcome(p.client, Err(Unparsed))
    else Outcome(p.client, Ok(p.result.value.order.value))
  }

  function PollAuthorizationSpec(w: World, c: Client, url: string, attempts: nat): Outcome<()>
    decreases url, attempts
  {
    if attempts == 0 then Outcome(c, Err(TimedOut))
    else
      var a := GetAuthorizationSpec(w, c, url);
      if a.result.Err? then Outcome(a.client, Err(a.result.error))
      else if a.result.value.status == VALID then Outcome(a.client, Ok(()))
      else if a.result.value.status != "pending" then Outcome(a.client, Err(BadStatus))
      else PollAuthorizationSpec(w, a.client, url, attempts - 1)
  }

  /** Until the order leaves "processing", which finalizing usually leaves it in. */
  predicate OrderWaits(status: string) {
    status == "processing" || status == "pending"
  }

  function PollOrderSpec(w: World, c: Client, url: string, attempts: nat): Outcome<AcmeOrder>
    decreases url, attempts
  {
    if attempts == 0 then Outcome(c, Err(TimedOut))
    else
      var o := GetOrderSpec(w, c, url);
      if o.result.Err? then o
      else if o.result.value.status == VALID then o
      else if !OrderWaits(o.result.value.status) then Outcome(o.client, Err(BadStatus))
      else PollOrderSpec(w, o.client, url, attempts - 1)
  }

  function FinalizeSpec(w: World, c: Client, order: AcmeOrder): Outcome<(AcmeOrder, string)> {
    if w.keyPem.None? then Outcome(c, Err(NoSignature))
    else
      var p := PostJwsSpec(w, c, order.finalize, Finalize(order));
      if p.result.Err? then Outcome(p.client, Err(p.result.error))
      else if p.result.value.order.None? then Outcome(p.client, Err(Unparsed))
      else Outcome(p.client, Ok((p.result.value.order.value, w.keyPem.value)))
  }

  function DownloadSpec(w: World, c: Client, url: string): Outcome<string> {
    var t := TakeNonceSpec(w, c);
    if t.result.Err? then Outcome(t.client, Err(NoNonce))
    else if c.kid.None? then Outcome(t.client, Err(NoKid))
    else if !w.signs(|t.client.trace|) then Outcome(t.client, Err(NoSignature))
    else
      var sent := SendSpec(w, t.client, url, Download, t.result.value);
      Outcome(sent.client,
              if sent.result.Err? then Err(Lost)
              else if sent.result.value.text.None? then Err(Garbled)
              else Ok(sent.result.value.text.value))
  }

  function AuthorizeSpec(w: World, keyAuthorization: string -> string, c: Client, url: string): Outcome<()> {
    var a := GetAuthorizationSpec(w, c, url);
    if a.result.Err? then Outcome(a.client, Err(a.result.error))
    else
      var challenge := FindHttp01(a.result.value.challenges);
      if challenge.None? || challenge.value.token.None? then Outcome(a.client, Err(NoChallenge))
      else
        AnswerSpec(w, keyAuthorization, a.client, challenge.value.url, challenge.value.token.value, url)
  }

  /** Publish, respond, poll, remove. */
  function AnswerSpec(w: World, keyAuthorization: string -> string, c: Client,
                      challengeUrl: string, token: string, url: string): Outcome<()> {
    var published := c.(trace := c.trace + [Publish(token, keyAuthorization(token))]);
    var polled := RespondSpec(w, published, challengeUrl, token, url);
    if polled.result.Err? then polled
    else polled.(client := polled.client.(trace := polled.client.trace + [Unpublish(token)]))
  }

  function RespondSpec(w: World, c: Client, challengeUrl: string, token: string, url: string): Outcome<()> {
    var responded := PostJwsSpec(w, c, challengeUrl, Respond(token));
    if responded.result.Err? then Outcome(responded.client, Err(responded.result.error))
    else PollAuthorizationSpec(w, responded.client, url, MAX_ATTEMPTS)
  }

  function AuthorizeAllSpec(w: World, keyAuthorization: string -> string, c: Client, urls: seq<string>): Outcome<()>
    decreases |urls|
  {
    if urls == [] then Outcome(c, Ok(()))
    else
      var first := AuthorizeSpec(w, keyAuthorization, c, urls[0]);
      if first.result.Err? then first else AuthorizeAllSpec(w, keyAuthorization, first.client, urls[1..])
  }

  /** The certificate URL of the order, once it is valid, and the key for the certificate. */
  function FinalizeAndPollSpec(w: World, c: Client, order: AcmeOrder, orderUrl: string): Outcome<(string, string)> {
    var finalized := FinalizeSpec(w, c, order);
    if finalized.result.Err? then Outcome(finalized.client, Err(finalized.result.error))
    else
      var issued := PollOrderSpec(w, finalized.client, orderUrl, MAX_ATTEMPTS);
      if issued.result.Err? then Outcome(issued.client, Err(issued.result.error))
      else if issued.result.value.certificate.None? then Outcome(issued.client, Err(NoCertificate))
      else Outcome(issued.client, Ok((issued.result.value.certificate.value, finalized.result.value.1)))
  }

  function FinishSpec(w: World, c: Client, order: AcmeOrder, orderUrl: string): Outcome<(string, string)> {
    var ready := FinalizeAndPollSpec(w, c, order, orderUrl);
    if ready.result.Err? then Outcome(ready.client, Err(ready.result.error))
    else
      var pem := DownloadSpec(w, ready.client, ready.result.value.0);
      Outcome(pem.client,
              if pem.result.Err? then Err(pem.result.error) else Ok((pem.result.value, ready.result.value.1)))
  }

  /** Register and order. */
  function OrderSpec(w: World, d: Directory, c: Client): Outcome<(AcmeOrder, string)> {
    var account := CreateAccountSpec(w, d, c);
    if account.result.Err? then Outcome(account.client, Err(account.result.error))
    else CreateOrderSpec(w, d, account.client)
  }

  /** All that comes before the order is finalized: the order and its URL. */
  function PrepareSpec(w: World, d: Directory, keyAuthorization: string -> string): Outcome<(AcmeOrder, string)> {
    var created := OrderSpec(w, d, Client(None, None, []));
    if created.result.Err? then created
    else
      var authorized := AuthorizeAllSpec(w, keyAuthorization, created.client, created.result.value.0.authorizations);
      Outcome(authorized.client, if authorized.result.Err? then Err(authorized.result.error) else created.result)
  }

  /** `obtain_certificate_http01` once the directory was read. */
  function ObtainSpec(w: World, d: Directory, keyAuthorization: string -> string): Outcome<(string, string)> {
    var ready := PrepareSpec(w, d, keyAuthorization);
    if ready.result.Err? then Outcome(ready.client, Err(ready.result.error))
    else FinishSpec(w, ready.client, ready.result.value.0, ready.result.value.1)
  }

  // ---------------------------------------------------------------- traffic

  lemma TakeNonceTraffic(w: World, c: Client)
    ensures var o := TakeNonceSpec(w, c);
      && OnlyTraffic(c.trace, o.client.trace, 0)
      && o.client.kid == c.kid && o.client.nonce.None?
      && |o.client.trace| == |c.trace| + (if c.nonce.Some? then 0 else 1)
  {
    Snoc(c.trace, Head(w.head(|c.trace|)));
  }

  lemma SendTraffic(w: World, c: Client, url: string, request: Request, n: Nonce)
    ensures var o := SendSpec(w, c, url, request, n);
      OnlyTraffic(c.trace, o.client.trace, 1) && o.client.kid == c.kid
  {
    Snoc(c.trace, Post(url, n, c.kid, request, w.post(|c.trace|)));
  }

  /** At most one POST. The nonce of its answer is kept whatever the status; without a POST none is kept. */
  lemma PostJwsTraffic(w: World, c: Client, url: string, request: Request)
    ensures var o := PostJwsSpec(w, c, url, request);
      && OnlyTraffic(c.trace, o.client.trace, 1)
      && o.client.kid == c.kid
      && (o.client.nonce.Some? ==> HandedOut(o.client.trace[|o.client.trace| - 1]) == o.client.nonce)
      && (Posts(o.client.trace) > Posts(c.trace) ==> HandedOut(o.client.trace[|o.client.trace| - 1]) == o.client.nonce)
  {
    var t := TakeNonceSpec(w, c);
    TakeNonceTraffic(w, c);
    if t.result.Ok? {
      SendTraffic(w, t.client, url, request, t.result.value);
      Snoc(t.client.trace, Post(url, t.result.value, c.kid, request, w.post(|t.client.trace|)));
    }
  }

  lemma GetAuthorizationTraffic(w: World, c: Client, url: string)
    ensures var o := GetAuthorizationSpec(w, c, url);
      OnlyTraffic(c.trace, o.client.trace, 1) && o.client.kid == c.kid
  {
    PostJwsTraffic(w, c, url, Fetch);
  }

  lemma GetOrderTraffic(w: World, c: Client, url: string)
    ensures var o := GetOrderSpec(w, c, url);
      OnlyTraffic(c.trace, o.client.trace, 1) && o.client.kid == c.kid
  {
    PostJwsTraffic(w, c, url, Fetch);
  }

  lemma {:induction false} PollAuthorizationTraffic(w: World, c: Client, url: string, attempts: nat)
    ensures var o := PollAuthorizationSpec(w, c, url, attempts);
      OnlyTraffic(c.trace, o.client.trace, attempts) && o.client.kid == c.kid
    decreases url, attempts
  {
    if attempts > 0 {
      var a := GetAuthorizationSpec(w, c, url);
      GetAuthorizationTraffic(w, c, url);
      if a.result.Ok? && a.result.value.status == "pending" {
        PollAuthorizationTraffic(w, a.client, url, attempts - 1);
        OnlyTrafficTogether(c.trace, a.client.trace, PollAuthorizationSpec(w, a.client, url, attempts - 1).client.trace,
                            1, attempts - 1);
      }
    }
  }

  lemma {:induction false} PollOrderTraffic(w: World, c: Client, url: string, attempts: nat)
    ensures var o := PollOrderSpec(w, c, url, attempts);
      OnlyTraffic(c.trace, o.client.trace, attempts) && o.client.kid == c.kid
    decreases url, attempts
  {
    if attempts > 0 {
      var o := GetOrderSpec(w, c, url);
      GetOrderTraffic(w, c, url);
      if o.result.Ok? && o.result.value.status != VALID && OrderWaits(o.result.value.status) {
        PollOrderTraffic(w, o.client, url, attempts - 1);
        OnlyTrafficTogether(c.trace, o.client.trace, PollOrderSpec(w, o.client, url, attempts - 1).client.trace,
                            1, attempts - 1);
      }
    }
  }

  lemma RespondTraffic(w: World, c: Client, challengeUrl: string, token: string, url: string)
    ensures var o := RespondSpec(w, c, challengeUrl, token, url);
      OnlyTraffic(c.trace, o.client.trace, MAX_ATTEMPTS + 1) && o.client.kid == c.kid
  {
    PostJwsTraffic(w, c, challengeUrl, Respond(token));
    PollAuthorizationTraffic(w, PostJwsSpec(w, c, challengeUrl, Respond(token)).client, url, MAX_ATTEMPTS);
  }

  lemma FinalizeTraffic(w: World, c: Client, order: AcmeOrder)
    ensures var o := FinalizeSpec(w, c, order);
      OnlyTraffic(c.trace, o.client.trace, 1) && o.client.kid == c.kid
  {
    if w.keyPem.Some? { PostJwsTraffic(w, c, order.finalize, Finalize(order)); }
  }

  lemma FinalizeAndPollTraffic(w: World, c: Client, order: AcmeOrder, orderUrl: string)
    ensures var o := FinalizeAndPollSpec(w, c, order, orderUrl);
      OnlyTraffic(c.trace, o.client.trace, MAX_ATTEMPTS + 1) && o.client.kid == c.kid
  {
    var finalized := FinalizeSpec(w, c, order);
    FinalizeTraffic(w, c, order);
    if finalized.result.Ok? {
      var issued := PollOrderSpec(w, finalized.client, orderUrl, MAX_ATTEMPTS);
      PollOrderTraffic(w, finalized.client, orderUrl, MAX_ATTEMPTS);
      OnlyTrafficTogether(c.trace, finalized.client.trace, issued.client.trace, 1, MAX_ATTEMPTS);
    }
  }

  lemma DownloadTraffic(w: World, c: Client, url: string)
    ensures var o := DownloadSpec(w, c, url);
      OnlyTraffic(c.trace, o.client.trace, 1) && o.client.kid == c.kid
  {
    var t := TakeNonceSpec(w, c);
    TakeNonceTraffic(w, c);
    if t.result.Ok? { SendTraffic(w, t.client, url, Download, t.result.value); }
  }

  lemma FinishTraffic(w: World, c: Client, order: AcmeOrder, orderUrl: string)
    ensures OnlyTraffic(c.trace, FinishSpec(w, c, order, orderUrl).client.trace, MAX_ATTEMPTS + 2)
  {
    var ready := FinalizeAndPollSpec(w, c, order, orderUrl);
    FinalizeAndPollTraffic(w, c, order, orderUrl);
    if ready.result.Ok? { DownloadTraffic(w, ready.client, ready.result.value.0); }
  }

  /** The last event is the answer to a download, with this text. */
  predicate EndsInDownload(tr: Trace, text: string) {
    && tr != []
    && var last := tr[|tr| - 1];
       last.Post? && last.request.Download? && last.reply.Answer? && last.reply.text == Some(text)
  }

  // ---------------------------------------------------------------- what every run keeps

  /** The nonces and the order of the requests are as RFC 8555 wants them. */
  ghost predicate Sound(c: Client, d: Directory, keyAuthorization: string -> string) {
    && Sourced(c.trace)
    && Orderly(c.trace, d, keyAuthorization)
    && (c.nonce.Some? ==> Stored(c.trace, c.nonce.value))
    && (c.kid.Some? ==> Registered(c.trace, c.kid.value))
  }

  lemma TakeNonceSafe(w: World, d: Directory, keyAuthorization: string -> string, c: Client)
    requires Sound(c, d, keyAuthorization)
    ensures var o := TakeNonceSpec(w, c);
      Sound(o.client, d, keyAuthorization) && (o.result.Ok? ==> Stored(o.client.trace, o.result.value))
  {
    var e := Head(w.head(|c.trace|));
    Snoc(c.trace, e);
    Grown(c.trace, c.trace + [e]);
  }

  lemma SendSafe(w: World, d: Directory, keyAuthorization: string -> string, c: Client, url: string, request: Request,
                 n: Nonce)
    requires Sound(c, d, keyAuthorization) && c.nonce.None? && Stored(c.trace, n)
    requires Permitted(c.trace, d, keyAuthorization, c.kid, url, request)
    ensures Sound(SendSpec(w, c, url, request, n).client, d, keyAuthorization)
  {
    var e := Post(url, n, c.kid, request, w.post(|c.trace|));
    Snoc(c.trace, e);
    Grown(c.trace, c.trace + [e]);
  }

  lemma StillPermitted(w: World, d: Directory, keyAuthorization: string -> string, c: Client, url: string,
                       request: Request)
    requires Permitted(c.trace, d, keyAuthorization, c.kid, url, request)
    ensures Permitted(TakeNonceSpec(w, c).client.trace, d, keyAuthorization, c.kid, url, request)
  {
    if c.nonce.None? { PermittedAfterHead(c.trace, w.head(|c.trace|), d, keyAuthorization, c.kid, url, request); }
  }

  /** The event of a POST that was answered as hoped. */
  ghost predicate Posted(tr: Trace, url: string, kid: Option<string>, request: Request, reply: Reply) {
    exists n :: Post(url, n, kid, request, reply) in tr
  }

  lemma PostJwsSafe(w: World, d: Directory, keyAuthorization: string -> string, c: Client, url: string,
                    request: Request)
    requires Sound(c, d, keyAuthorization) && Permitted(c.trace, d, keyAuthorization, c.kid, url, request)
    ensures var o := PostJwsSpec(w, c, url, request);
      && Sound(o.client, d, keyAuthorization)
      && (o.result.Ok? ==> o.result.value.Answer? && o.result.value.success)
      && (o.result.Ok? ==> Posted(o.client.trace, url, c.kid, request, o.result.value))
  {
    var t := TakeNonceSpec(w, c);
    TakeNonceSafe(w, d, keyAuthorization, c);
    StillPermitted(w, d, keyAuthorization, c, url, request);
    TakeNonceTraffic(w, c);
    if t.result.Ok? && w.signs(|t.client.trace|) {
      SendSafe(w, d, keyAuthorization, t.client, url, request, t.result.value);
      var o := PostJwsSpec(w, c, url, request);
      var sent := Post(url, t.result.value, c.kid, request, w.post(|t.client.trace|));
      assert o.client.trace[|o.client.trace| - 1] == sent;
    }
  }

  /** On success the account URL is the one the server answered. */
  lemma CreateAccountSafe(w: World, d: Directory, keyAuthorization: string -> string)
    ensures var o := CreateAccountSpec(w, d, Client(None, None, []));
      && Sound(o.client, d, keyAuthorization)
      && OnlyTraffic([], o.client.trace, 1)
      && (o.result.Ok? ==> o.client.kid.Some?)
  {
    var c := Client(None, None, []);
    PostJwsSafe(w, d, keyAuthorization, c, d.newAccount, NewAccount);
    PostJwsTraffic(w, c, d.newAccount, NewAccount);
    var p := PostJwsSpec(w, c, d.newAccount, NewAccount);
    if p.result.Ok? && p.result.value.location.Some? {
      var n :| Post(d.newAccount, n, None, NewAccount, p.result.value) in p.client.trace;
      assert SaysRegistered(Post(d.newAccount, n, None, NewAccount, p.result.value), p.result.value.location.value);
    }
  }

  /** On success the order and its URL are those the server answered. */
  lemma CreateOrderSafe(w: World, d: Directory, keyAuthorization: string -> string, c: Client)
    requires Sound(c, d, keyAuthorization) && c.kid.Some?
    ensures var o := CreateOrderSpec(w, d, c);
      && Sound(o.client, d, keyAuthorization)
      && (o.result.Ok? ==> Ordered(o.client.trace, o.result.value.0) && OrderedAt(o.client.trace, o.result.value.1))
  {
    PostJwsSafe(w, d, keyAuthorization, c, d.newOrder, NewOrder);
    var p := PostJwsSpec(w, c, d.newOrder, NewOrder);
    if p.result.Ok? && p.result.value.location.Some? && p.result.value.order.Some? {
      var n :| Post(d.newOrder, n, c.kid, NewOrder, p.result.value) in p.client.trace;
      assert SaysOrdered(Post(d.newOrder, n, c.kid, NewOrder, p.result.value), p.result.value.order.value);
    }
  }

  lemma GetAuthorizationSafe(w: World, d: Directory, keyAuthorization: string -> string, c: Client, url: string)
    requires Sound(c, d, keyAuthorization) && c.kid.Some? && Listed(c.trace, url)
    ensures var o := GetAuthorizationSpec(w, c, url);
      && Sound(o.client, d, keyAuthorization)
      && (o.result.Ok? && o.result.value.status == VALID ==> SeenValid(o.client.trace, url))
      && (o.result.Ok? ==> AllOffered(o.client.trace, o.result.value.challenges))
  {
    PostJwsSafe(w, d, keyAuthorization, c, url, Fetch);
    var p := PostJwsSpec(w, c, url, Fetch);
    if p.result.Ok? && p.result.value.authorization.Some? {
      var n :| Post(url, n, c.kid, Fetch, p.result.value) in p.client.trace;
      var e, a := Post(url, n, c.kid, Fetch, p.result.value), p.result.value.authorization.value;
      assert a.status == VALID ==> SaysValid(e, url);
      forall ch | ch in a.challenges && ch.challengeType == "http-01" && ch.token.Some?
        ensures Offered(p.client.trace, ch.url, ch.token.value)
      {
        assert Offers(e, ch.url, ch.token.value);
      }
    }
  }

  lemma GetOrderSafe(w: World, d: Directory, keyAuthorization: string -> string, c: Client, url: string)
    requires Sound(c, d, keyAuthorization) && c.kid.Some? && OrderedAt(c.trace, url)
    ensures var o := GetOrderSpec(w, c, url);
      && Sound(o.client, d, keyAuthorization)
      && (o.result.Ok? && o.result.value.status == VALID && o.result.value.certificate.Some? ==>
            SeenIssued(o.client.trace, url, o.result.value.certificate.value))
  {
    PostJwsSafe(w, d, keyAuthorization, c, url, Fetch);
    var p := PostJwsSpec(w, c, url, Fetch);
    if p.result.Ok? && p.result.value.order.Some? {
      var n :| Post(url, n, c.kid, Fetch, p.result.value) in p.client.trace;
      var order := p.result.value.order.value;
      if order.status == VALID && order.certificate.Some? {
        assert SaysIssued(Post(url, n, c.kid, Fetch, p.result.value), order.certificate.value);
      }
    }
  }

  /** Success means that the server said valid. */
  lemma {:induction false} PollAuthorizationSafe(w: World, d: Directory, keyAuthorization: string -> string,
                                                 c: Client, url: string, attempts: nat)
    requires Sound(c, d, keyAuthorization) && c.kid.Some? && Listed(c.trace, url)
    ensures var o := PollAuthorizationSpec(w, c, url, attempts);
      Sound(o.client, d, keyAuthorization) && (o.result.Ok? ==> SeenValid(o.client.trace, url))
    decreases url, attempts
  {
    if attempts > 0 {
      GetAuthorizationSafe(w, d, keyAuthorization, c, url);
      GetAuthorizationTraffic(w, c, url);
      var a := GetAuthorizationSpec(w, c, url);
      ListedLater(c.trace, a.client.trace, url);
      if a.result.Ok? && a.result.value.status == "pending" {
        PollAuthorizationSafe(w, d, keyAuthorization, a.client, url, attempts - 1);
      }
    }
  }

  lemma {:induction false} PollOrderSafe(w: World, d: Directory, keyAuthorization: string -> string, c: Client,
                                         url: string, attempts: nat)
    requires Sound(c, d, keyAuthorization) && c.kid.Some? && OrderedAt(c.trace, url)
    ensures var o := PollOrderSpec(w, c, url, attempts);
      && Sound(o.client, d, keyAuthorization)
      && (o.result.Ok? ==> o.result.value.status == VALID)
      && (o.result.Ok? && o.result.value.certificate.Some? ==>
            SeenIssued(o.client.trace, url, o.result.value.certificate.value))
    decreases url, attempts
  {
    if attempts > 0 {
      GetOrderSafe(w, d, keyAuthorization, c, url);
      GetOrderTraffic(w, c, url);
      var o := GetOrderSpec(w, c, url);
      OrderedAtLater(c.trace, o.client.trace, url);
      if o.result.Ok? && o.result.value.status != VALID && OrderWaits(o.result.value.status) {
        PollOrderSafe(w, d, keyAuthorization, o.client, url, attempts - 1);
      }
    }
  }

  lemma RespondSafe(w: World, d: Directory, keyAuthorization: string -> string, c: Client, challengeUrl: string,
                    token: string, url: string)
    requires Sound(c, d, keyAuthorization) && c.kid.Some? && Offered(c.trace, challengeUrl, token)
    requires Listed(c.trace, url)
    requires token in Published(c.trace) && Published(c.trace)[token] == keyAuthorization(token)
    ensures var o := RespondSpec(w, c, challengeUrl, token, url);
      Sound(o.client, d, keyAuthorization) && (o.result.Ok? ==> SeenValid(o.client.trace, url))
  {
    PostJwsSafe(w, d, keyAuthorization, c, challengeUrl, Respond(token));
    PostJwsTraffic(w, c, challengeUrl, Respond(token));
    var responded := PostJwsSpec(w, c, challengeUrl, Respond(token));
    ListedLater(c.trace, responded.client.trace, url);
    PollAuthorizationSafe(w, d, keyAuthorization, responded.client, url, MAX_ATTEMPTS);
  }

  /** A change of the challenge store between two requests. */
  lemma NoteSafe(d: Directory, keyAuthorization: string -> string, c: Client, e: Event)
    requires Sound(c, d, keyAuthorization) && (e.Publish? || e.Unpublish?)
    ensures Sound(c.(trace := c.trace + [e]), d, keyAuthorization)
  {
    Snoc(c.trace, e);
    Grown(c.trace, c.trace + [e]);
  }

  /** Nothing of an earlier authorization is published any more. */
  ghost predicate Clear(c: Client, d: Directory, keyAuthorization: string -> string) {
    Sound(c, d, keyAuthorization) && c.kid.Some? && Published(c.trace) == map[]
  }

  /** What answering challenges leads to: `posts` POSTs at most, and at most one token left behind,
      none of them on success. */
  ghost predicate Proceeds(c: Client, o: Outcome<()>, d: Directory, keyAuthorization: string -> string, posts: nat) {
    && Sound(o.client, d, keyAuthorization)
    && c.trace <= o.client.trace
    && Posts(o.client.trace) <= Posts(c.trace) + posts
    && AtMostOne(Published(o.client.trace))
    && (o.result.Ok? ==> Clear(o.client, d, keyAuthorization))
  }

  lemma AnswerSafe(w: World, d: Directory, keyAuthorization: string -> string, c: Client, challengeUrl: string,
                   token: string, url: string)
    requires Clear(c, d, keyAuthorization) && Listed(c.trace, url) && Offered(c.trace, challengeUrl, token)
    ensures var o := AnswerSpec(w, keyAuthorization, c, challengeUrl, token, url);
      && Proceeds(c, o, d, keyAuthorization, MAX_ATTEMPTS + 1)
      && (o.result.Ok? ==> SeenValid(o.client.trace, url))
  {
    var e := Publish(token, keyAuthorization(token));
    var published := c.(trace := c.trace + [e]);
    NoteSafe(d, keyAuthorization, c, e);
    PublishOne(map[], c.trace, token, keyAuthorization(token));
    OfferedLater(c.trace, published.trace, challengeUrl, token);
    ListedLater(c.trace, published.trace, url);
    RespondSafe(w, d, keyAuthorization, published, challengeUrl, token, url);
    RespondTraffic(w, published, challengeUrl, token, url);
    var polled := RespondSpec(w, published, challengeUrl, token, url);
    if polled.result.Ok? {
      NoteSafe(d, keyAuthorization, polled.client, Unpublish(token));
      UnpublishOne(map[], polled.client.trace, token);
      StillValid(polled.client.trace, polled.client.trace + [Unpublish(token)], url);
    }
  }

  /** One authorization: at most 22 POSTs; success leaves no token, failure at most this one. */
  lemma AuthorizeSafe(w: World, d: Directory, keyAuthorization: string -> string, c: Client, url: string)
    requires Clear(c, d, keyAuthorization) && Listed(c.trace, url)
    ensures var o := AuthorizeSpec(w, keyAuthorization, c, url);
      && Proceeds(c, o, d, keyAuthorization, MAX_ATTEMPTS + 2)
      && (o.result.Ok? ==> SeenValid(o.client.trace, url))
  {
    GetAuthorizationSafe(w, d, keyAuthorization, c, url);
    GetAuthorizationTraffic(w, c, url);
    var a := GetAuthorizationSpec(w, c, url);
    ListedLater(c.trace, a.client.trace, url);
    if a.result.Ok? {
      var challenge := FindHttp01(a.result.value.challenges);
      if challenge.Some? && challenge.value.token.Some? {
        AnswerSafe(w, d, keyAuthorization, a.client, challenge.value.url, challenge.value.token.value, url);
      }
    }
  }

  lemma {:induction false} AuthorizeAllSafe(w: World, d: Directory, keyAuthorization: string -> string, c: Client,
                                            urls: seq<string>)
    requires Clear(c, d, keyAuthorization)
    requires forall url :: url in urls ==> Listed(c.trace, url)
    ensures var o := AuthorizeAllSpec(w, keyAuthorization, c, urls);
      && Proceeds(c, o, d, keyAuthorization, (MAX_ATTEMPTS + 2) * |urls|)
      && (o.result.Ok? ==> forall url :: url in urls ==> SeenValid(o.client.trace, url))
    decreases |urls|
  {
    if urls != [] {
      var first := AuthorizeSpec(w, keyAuthorization, c, urls[0]);
      AuthorizeSafe(w, d, keyAuthorization, c, urls[0]);
      if first.result.Ok? {
        var o := AuthorizeAllSpec(w, keyAuthorization, first.client, urls[1..]);
        forall url | url in urls[1..] ensures Listed(first.client.trace, url) {
          ListedLater(c.trace, first.client.trace, url);
        }
        AuthorizeAllSafe(w, d, keyAuthorization, first.client, urls[1..]);
        if o.result.Ok? { StillValid(first.client.trace, o.client.trace, urls[0]); }
        assert forall url :: url in urls <==> url == urls[0] || url in urls[1..];
      }
    }
  }

  lemma OrderTraffic(w: World, d: Directory, c: Client)
    ensures OnlyTraffic(c.trace, OrderSpec(w, d, c).client.trace, 2)
  {
    var account := CreateAccountSpec(w, d, c);
    PostJwsTraffic(w, c, d.newAccount, NewAccount);
    if account.result.Ok? {
      PostJwsTraffic(w, account.client, d.newOrder, NewOrder);
      OnlyTrafficTogether(c.trace, account.client.trace, OrderSpec(w, d, c).client.trace, 1, 1);
    }
  }

  lemma OrderSafe(w: World, d: Directory, keyAuthorization: string -> string)
    ensures var o := OrderSpec(w, d, Client(None, None, []));
      && Sound(o.client, d, keyAuthorization)
      && (o.result.Ok? ==> o.client.kid.Some?)
      && (o.result.Ok? ==> Ordered(o.client.trace, o.result.value.0) && OrderedAt(o.client.trace, o.result.value.1))
  {
    var account := CreateAccountSpec(w, d, Client(None, None, []));
    CreateAccountSafe(w, d, keyAuthorization);
    if account.result.Ok? {
      CreateOrderSafe(w, d, keyAuthorization, account.client);
      PostJwsTraffic(w, account.client, d.newOrder, NewOrder);
    }
  }

  lemma OrderedIsListed(tr: Trace, order: AcmeOrder, url: string)
    requires Ordered(tr, order) && url in order.authorizations
    ensures Listed(tr, url)
  {
    var e :| e in tr && SaysOrdered(e, order);
  }

  /** Everything up to the last authorization. */
  lemma PrepareSafe(w: World, d: Directory, keyAuthorization: string -> string)
    ensures var o := PrepareSpec(w, d, keyAuthorization);
      && Sound(o.client, d, keyAuthorization)
      && AtMostOne(Published(o.client.trace))
      && WithinBudget(o.client.trace)
      && (o.result.Ok? ==> Prepared(o.client, o.result.value.0, o.result.value.1, d, keyAuthorization))
  {
    var created := OrderSpec(w, d, Client(None, None, []));
    OrderSafe(w, d, keyAuthorization);
    OrderTraffic(w, d, Client(None, None, []));
    if created.result.Ok? {
      var urls := created.result.value.0.authorizations;
      forall url | url in urls ensures Listed(created.client.trace, url) {
        OrderedIsListed(created.client.trace, created.result.value.0, url);
      }
      AuthorizeAllSafe(w, d, keyAuthorization, created.client, urls);
      OrderLater(created.client.trace, AuthorizeAllSpec(w, keyAuthorization, created.client, urls).client.trace,
                 created.result.value.0, created.result.value.1);
    }
  }

  /** The order may be finalized. */
  ghost predicate Prepared(c: Client, order: AcmeOrder, orderUrl: string, d: Directory,
                           keyAuthorization: string -> string)
  {
    && Clear(c, d, keyAuthorization)
    && Ordered(c.trace, order) && OrderedAt(c.trace, orderUrl)
    && (forall a :: a in order.authorizations ==> SeenValid(c.trace, a))
    && Posts(c.trace) <= (MAX_ATTEMPTS + 2) * |order.authorizations| + 2
  }

  lemma FinalizeAndPollSafe(w: World, d: Directory, keyAuthorization: string -> string, c: Client, order: AcmeOrder,
                            orderUrl: string)
    requires Prepared(c, order, orderUrl, d, keyAuthorization)
    ensures var o := FinalizeAndPollSpec(w, c, order, orderUrl);
      Sound(o.client, d, keyAuthorization) && (o.result.Ok? ==> Issued(o.client.trace, o.result.value.0))
  {
    PostJwsSafe(w, d, keyAuthorization, c, order.finalize, Finalize(order));
    FinalizeTraffic(w, c, order);
    var finalized := FinalizeSpec(w, c, order);
    if finalized.result.Ok? {
      OrderLater(c.trace, finalized.client.trace, order, orderUrl);
      PollOrderSafe(w, d, keyAuthorization, finalized.client, orderUrl, MAX_ATTEMPTS);
      PollOrderTraffic(w, finalized.client, orderUrl, MAX_ATTEMPTS);
      OrderLater(c.trace, PollOrderSpec(w, finalized.client, orderUrl, MAX_ATTEMPTS).client.trace, order, orderUrl);
    }
  }

  /** A downloaded text is the text of the last answer, whatever the status of that answer. */
  lemma DownloadedText(w: World, c: Client, url: string)
    ensures var o := DownloadSpec(w, c, url); var tr := o.client.trace;
      o.result.Ok? ==> EndsInDownload(tr, o.result.value) && |tr| > |c.trace| && Downloaded(tr, o.result.value)
  {
    var o := DownloadSpec(w, c, url);
    if o.result.Ok? { DownloadedLast(o.client.trace, o.result.value); }
  }

  lemma DownloadSafe(w: World, d: Directory, keyAuthorization: string -> string, c: Client, url: string)
    requires Sound(c, d, keyAuthorization) && c.kid.Some? && Issued(c.trace, url)
    ensures var o := DownloadSpec(w, c, url);
      Sound(o.client, d, keyAuthorization) && (o.result.Ok? ==> Downloaded(o.client.trace, o.result.value))
  {
    var t := TakeNonceSpec(w, c);
    TakeNonceSafe(w, d, keyAuthorization, c);
    StillPermitted(w, d, keyAuthorization, c, url, Download);
    TakeNonceTraffic(w, c);
    if t.result.Ok? && w.signs(|t.client.trace|) {
      SendSafe(w, d, keyAuthorization, t.client, url, Download, t.result.value);
      DownloadedText(w, c, url);
    }
  }

  /** Against any server: every nonce was freshly handed out, every POST was permitted, the POSTs
      are bounded by the number of authorizations, and the tokens of this run are gone on success,
      all but at most one on failure. */
  lemma ObtainSafe(w: World, d: Directory, keyAuthorization: string -> string)
    ensures var o := ObtainSpec(w, d, keyAuthorization); var tr := o.client.trace;
      && Sourced(tr) && Orderly(tr, d, keyAuthorization)
      && (if o.result.Ok? then Published(tr) == map[] && Downloaded(tr, o.result.value.0) else AtMostOne(Published(tr)))
      && WithinBudget(tr)
  {
    var ready := PrepareSpec(w, d, keyAuthorization);
    PrepareSafe(w, d, keyAuthorization);
    if ready.result.Ok? {
      var (order, orderUrl) := ready.result.value;
      FinalizeAndPollSafe(w, d, keyAuthorization, ready.client, order, orderUrl);
      FinalizeAndPollTraffic(w, ready.client, order, orderUrl);
      FinishTraffic(w, ready.client, order, orderUrl);
      OrderLater(ready.client.trace, FinishSpec(w, ready.client, order, orderUrl).client.trace, order, orderUrl);
      var issued := FinalizeAndPollSpec(w, ready.client, order, orderUrl);
      if issued.result.Ok? { DownloadSafe(w, d, keyAuthorization, issued.client, issued.result.value.0); }
    }
  }
}
