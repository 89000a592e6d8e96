/** What the ACME client makes of the statuses it is shown: when polling goes on, when it ends, and
    that a server which is slow but well-disposed gets its certificate delivered. */
module AcmeProgress {
  import opened Common
  import opened Acme
  import opened AcmeRuns
  import opened AcmeDownload

  // ---------------------------------------------------------------- polling an order

  /** The client after `k` looks at the order. */
  function OrderClient(w: World, c: Client, url: string, k: nat): Client {
    if k == 0 then c else GetOrderSpec(w, OrderClient(w, c, url, k - 1), url).client
  }

  /** What look number `k` (from 0 on) at the order shows. */
  function OrderSeen(w: World, c: Client, url: string, k: nat): Result<AcmeOrder, Failure> {
    GetOrderSpec(w, OrderClient(w, c, url, k), url).result
  }

  predicate OrderInProgress(r: Result<AcmeOrder, Failure>) {
    r.Ok? && (r.value.status == "processing" || r.value.status == "pending")
  }

  predicate OrderValid(r: Result<AcmeOrder, Failure>) {
    r.Ok? && r.value.status == "valid"
  }

  predicate OrderInProgressUpTo(w: World, c: Client, url: string, k: nat) {
    forall i: nat :: i < k ==> OrderInProgress(OrderSeen(w, c, url, i))
  }

  lemma {:induction false} OrderClientLater(w: World, c: Client, url: string, k: nat)
    ensures OrderClient(w, GetOrderSpec(w, c, url).client, url, k) == OrderClient(w, c, url, k + 1)
  {
    if k > 0 {
      OrderClientLater(w, c, url, k - 1);
    } else {
      assert OrderClient(w, c, url, 1) == GetOrderSpec(w, OrderClient(w, c, url, 0), url).client;
    }
  }

  /** A look shows the order in the answer to a POST-as-GET of its URL, and only in a 2xx answer. */
  lemma OrderSeenWasAnswered(w: World, c: Client, url: string)
    ensures var o := GetOrderSpec(w, c, url); var tr := o.client.trace;
      && o.result != Err(BadStatus) && o.result != Err(TimedOut)
      && (o.result.Ok? ==>
            && tr != []
            && tr[|tr| - 1].Post? && tr[|tr| - 1].url == url && tr[|tr| - 1].request.Fetch?
            && tr[|tr| - 1].reply.Answer? && tr[|tr| - 1].reply.success
            && tr[|tr| - 1].reply.order == Some(o.result.value))
  {
  }

  lemma LooksOrderLater(w: World, c: Client, url: string, k: nat)
    requires k > 0 && OrderInProgressUpTo(w, c, url, k)
    ensures var next := GetOrderSpec(w, c, url).client;
      OrderInProgressUpTo(w, next, url, k - 1) && OrderSeen(w, next, url, k - 1) == OrderSeen(w, c, url, k)
    ensures OrderInProgress(OrderSeen(w, c, url, 0))
  {
    var next := GetOrderSpec(w, c, url).client;
    forall i: nat | i < k - 1 ensures OrderInProgress(OrderSeen(w, next, url, i)) {
      OrderClientLater(w, c, url, i);
      assert OrderInProgress(OrderSeen(w, c, url, i + 1));
    }
    OrderClientLater(w, c, url, k - 1);
  }

  lemma PollOrderStep(w: World, c: Client, url: string, attempts: nat)
    requires attempts > 0 && OrderInProgress(OrderSeen(w, c, url, 0))
    ensures PollOrderSpec(w, c, url, attempts) ==
            PollOrderSpec(w, GetOrderSpec(w, c, url).client, url, attempts - 1)
  {
    assert OrderSeen(w, c, url, 0) == GetOrderSpec(w, c, url).result;
  }

  lemma PollOrderEnd(w: World, c: Client, url: string, attempts: nat)
    requires attempts > 0
    ensures var r := PollOrderSpec(w, c, url, attempts).result; var seen := OrderSeen(w, c, url, 0);
      && (OrderValid(seen) ==> r == seen)
      && (seen.Err? ==> r == seen)
      && (seen.Ok? && !OrderValid(seen) && !OrderInProgress(seen) ==> r == Err(BadStatus))
  {
    assert OrderSeen(w, c, url, 0) == GetOrderSpec(w, c, url).result;
  }

  /** The `k` looks that come first show an order in progress; the next one decides. */
  lemma {:induction false} PollOrderDecided(w: World, c: Client, url: string, attempts: nat, k: nat)
    requires k <= attempts && OrderInProgressUpTo(w, c, url, k)
    ensures var r := PollOrderSpec(w, c, url, attempts).result;
      if k == attempts then r == Err(TimedOut)
      else
        var seen := OrderSeen(w, c, url, k);
        && (OrderValid(seen) ==> r == seen)
        && (seen.Err? ==> r == seen)
        && (seen.Ok? && !OrderValid(seen) && !OrderInProgress(seen) ==> r == Err(BadStatus))
    decreases k
  {
    if k > 0 {
      LooksOrderLater(w, c, url, k);
      PollOrderStep(w, c, url, attempts);
      PollOrderDecided(w, GetOrderSpec(w, c, url).client, url, attempts - 1, k - 1);
    } else if attempts > 0 {
      PollOrderEnd(w, c, url, attempts);
    }
  }

  lemma {:induction false} FirstDecision(w: World, c: Client, url: string, attempts: nat) returns (k: nat)
    ensures k <= attempts && OrderInProgressUpTo(w, c, url, k)
    ensures k < attempts ==> !OrderInProgress(OrderSeen(w, c, url, k))
  {
    if attempts == 0 {
      k := 0;
    } else {
      k := FirstDecision(w, c, url, attempts - 1);
      if k == attempts - 1 && OrderInProgress(OrderSeen(w, c, url, k)) { k := attempts; }
    }
  }

  /** Look number `k` is the first that does not show an order in progress. */
  predicate Decides(w: World, c: Client, url: string, attempts: nat, k: nat) {
    k < attempts && OrderInProgressUpTo(w, c, url, k) && !OrderInProgress(OrderSeen(w, c, url, k))
  }

  /** An order poll returns an order exactly when the first look that does not show it "processing"
      or "pending" shows it "valid", and fails for its status exactly when that look shows anything
      else. */
  lemma PollOrderIff(w: World, c: Client, url: string, attempts: nat)
    ensures var r := PollOrderSpec(w, c, url, attempts).result;
      && (r.Ok? <==> exists k: nat :: Decides(w, c, url, attempts, k) && OrderValid(OrderSeen(w, c, url, k)))
      && (r == Err(BadStatus) <==>
            exists k: nat :: Decides(w, c, url, attempts, k) && OrderSeen(w, c, url, k).Ok?
                          && !OrderValid(OrderSeen(w, c, url, k)))
      && (r == Err(TimedOut) <==> OrderInProgressUpTo(w, c, url, attempts))
  {
    var first := FirstDecision(w, c, url, attempts);
    PollOrderDecided(w, c, url, attempts, first);
    OrderSeenWasAnswered(w, OrderClient(w, c, url, first), url);
    if first < attempts { assert Decides(w, c, url, attempts, first); }
    var seen := OrderSeen(w, c, url, first);
    forall k: nat | Decides(w, c, url, attempts, k) ensures k == first {
      assert k < first ==> OrderInProgress(OrderSeen(w, c, url, k));
      assert first < k ==> OrderInProgress(seen);
    }
  }

  // ---------------------------------------------------------------- polling an authorization

  function AuthorizationClient(w: World, c: Client, url: string, k: nat): Client {
    if k == 0 then c else GetAuthorizationSpec(w, AuthorizationClient(w, c, url, k - 1), url).client
  }

  function AuthorizationSeen(w: World, c: Client, url: string, k: nat): Result<AcmeAuthorization, Failure> {
    GetAuthorizationSpec(w, AuthorizationClient(w, c, url, k), url).result
  }

  predicate AuthorizationPending(r: Result<AcmeAuthorization, Failure>) {
    r.Ok? && r.value.status == "pending"
  }

  predicate AuthorizationPendingUpTo(w: World, c: Client, url: string, k: nat) {
    forall i: nat :: i < k ==> AuthorizationPending(AuthorizationSeen(w, c, url, i))
  }

  lemma {:induction false} AuthorizationClientLater(w: World, c: Client, url: string, k: nat)
    ensures AuthorizationClient(w, GetAuthorizationSpec(w, c, url).client, url, k) ==
            AuthorizationClient(w, c, url, k + 1)
  {
    if k > 0 {
      AuthorizationClientLater(w, c, url, k - 1);
    } else {
      assert AuthorizationClient(w, c, url, 1) ==
             GetAuthorizationSpec(w, AuthorizationClient(w, c, url, 0), url).client;
    }
  }

  lemma LooksAuthorizationLater(w: World, c: Client, url: string, k: nat)
    requires k > 0 && AuthorizationPendingUpTo(w, c, url, k)
    ensures var next := GetAuthorizationSpec(w, c, url).client;
      && AuthorizationPendingUpTo(w, next, url, k - 1)
      && AuthorizationSeen(w, next, url, k - 1) == AuthorizationSeen(w, c, url, k)
    ensures AuthorizationPending(AuthorizationSeen(w, c, url, 0))
  {
    var next := GetAuthorizationSpec(w, c, url).client;
    forall i: nat | i < k - 1 ensures AuthorizationPending(AuthorizationSeen(w, next, url, i)) {
      AuthorizationClientLater(w, c, url, i);
      assert AuthorizationPending(AuthorizationSeen(w, c, url, i + 1));
    }
    AuthorizationClientLater(w, c, url, k - 1);
  }

  lemma PollAuthorizationStep(w: World, c: Client, url: string, attempts: nat)
    requires attempts > 0 && AuthorizationPending(AuthorizationSeen(w, c, url, 0))
    ensures PollAuthorizationSpec(w, c, url, attempts) ==
            PollAuthorizationSpec(w, GetAuthorizationSpec(w, c, url).client, url, attempts - 1)
  {
    assert AuthorizationSeen(w, c, url, 0) == GetAuthorizationSpec(w, c, url).result;
  }

  /** An authorization poll goes on exactly while it is shown "pending"; the next look decides. */
  lemma {:induction false} PollAuthorizationDecided(w: World, c: Client, url: string, attempts: nat, k: nat)
    requires k <= attempts && AuthorizationPendingUpTo(w, c, url, k)
    ensures var r := PollAuthorizationSpec(w, c, url, attempts).result;
      if k == attempts then r == Err(TimedOut)
      else
        var seen := AuthorizationSeen(w, c, url, k);
        && (seen.Ok? && seen.value.status == "valid" ==> r == Ok(()))
        && (seen.Err? ==> r == Err(seen.error))
        && (seen.Ok? && seen.value.status != "valid" && seen.value.status != "pending" ==> r == Err(BadStatus))
    decreases k
  {
    if k > 0 {
      LooksAuthorizationLater(w, c, url, k);
      PollAuthorizationStep(w, c, url, attempts);
      PollAuthorizationDecided(w, GetAuthorizationSpec(w, c, url).client, url, attempts - 1, k - 1);
    }
  }

  // ---------------------------------------------------------------- what is missing

  predicate OffersHttp01(a: AcmeAuthorization) {
    exists i: nat ::
      && i < |a.challenges|
      && a.challenges[i].challengeType == "http-01" && a.challenges[i].token.Some?
      && forall j: nat :: j < i ==> a.challenges[j].challengeType != "http-01"
  }

  lemma FirstOfferIff(a: AcmeAuthorization)
    ensures OffersHttp01(a) <==> FindHttp01(a.challenges).Some? && FindHttp01(a.challenges).value.token.Some?
  {
    var r := FindHttp01(a.challenges);
    if r.Some? {
      var k: nat :| FirstHttp01(a.challenges, k) && a.challenges[k] == r.value;
      forall i: nat | FirstHttp01(a.challenges, i) ensures i == k {}
      assert OffersHttp01(a) ==> exists i: nat :: FirstHttp01(a.challenges, i) && a.challenges[i].token.Some?;
    } else {
      forall i: nat | i < |a.challenges| ensures a.challenges[i].challengeType != "http-01" {
        assert a.challenges[i] in a.challenges;
      }
    }
  }

  /** An authorization without an http-01 challenge, or whose first one has no token, is given up. */
  lemma NoChallengeOffered(w: World, keyAuthorization: string -> string, c: Client, url: string)
    requires GetAuthorizationSpec(w, c, url).result.Ok?
    ensures AuthorizeSpec(w, keyAuthorization, c, url).result == Err(NoChallenge) <==>
      !OffersHttp01(GetAuthorizationSpec(w, c, url).result.value)
  {
    var a := GetAuthorizationSpec(w, c, url);
    var challenge := FindHttp01(a.result.value.challenges);
    FirstOfferIff(a.result.value);
    if OffersHttp01(a.result.value) {
      var published := a.client.(trace :=
        a.client.trace + [Publish(challenge.value.token.value, keyAuthorization(challenge.value.token.value))]);
      RespondFails(w, published, challenge.value.url, challenge.value.token.value, url);
    }
  }

  lemma RespondFails(w: World, c: Client, challengeUrl: string, token: string, url: string)
    ensures RespondSpec(w, c, challengeUrl, token, url).result != Err(NoChallenge)
  {
    var responded := PostJwsSpec(w, c, challengeUrl, Respond(token));
    if responded.result.Ok? { PollFails(w, responded.client, url, MAX_ATTEMPTS); }
  }

  lemma {:induction false} PollFails(w: World, c: Client, url: string, attempts: nat)
    ensures PollAuthorizationSpec(w, c, url, attempts).result != Err(NoChallenge)
    decreases url, attempts
  {
    if attempts > 0 { PollFails(w, GetAuthorizationSpec(w, c, url).client, url, attempts - 1); }
  }

  /** A valid order without a certificate URL is given up. */
  lemma NoCertificateNamed(w: World, c: Client, order: AcmeOrder, orderUrl: string)
    requires FinalizeSpec(w, c, order).result.Ok?
    requires var o := PollOrderSpec(w, FinalizeSpec(w, c, order).client, orderUrl, MAX_ATTEMPTS).result;
      o.Ok? && o.value.certificate.None?
    ensures FinishSpec(w, c, order, orderUrl).result == Err(NoCertificate)
  {
  }

  // ---------------------------------------------------------------- a slow but well-disposed server

  /** A complete 2xx answer that reports no failure of an order or an authorization. */
  predicate KindReply(r: Reply) {
    && r.Answer? && r.success && r.json
    && r.nonce.Some? && r.location.Some? && r.text.Some? && r.order.Some? && r.authorization.Some?
    && r.order.value.status in {"pending", "processing", "valid"}
    && (r.order.value.status == "valid" ==> r.order.value.certificate.Some?)
    && r.authorization.value.status in {"pending", "valid"}
    && OffersHttp01(r.authorization.value)
  }

  ghost predicate KindServer(w: World) {
    && w.keyPem.Some?
    && (forall i: nat :: w.head(i).Some?)
    && (forall i: nat :: w.signs(i))
    && (forall i: nat :: KindReply(w.post(i)))
  }

  /** From event `i` on, the order is shown valid within `n` answers. */
  predicate OrderReadyWithin(w: World, i: nat, n: nat) {
    exists j: nat ::
      && i <= j < i + n
      && w.post(j).Answer? && w.post(j).order.Some? && w.post(j).order.value.status == "valid"
  }

  predicate AuthorizationReadyWithin(w: World, i: nat, n: nat) {
    exists j: nat ::
      && i <= j < i + n
      && w.post(j).Answer? && w.post(j).authorization.Some? && w.post(j).authorization.value.status == "valid"
  }

  /** Nothing stays unfinished for twenty answers in a row. */
  ghost predicate NeverStalls(w: World) {
    && (forall i: nat :: OrderReadyWithin(w, i, 20))
    && (forall i: nat :: AuthorizationReadyWithin(w, i, 20))
  }

  lemma KindPost(w: World, c: Client, url: string, request: Request)
    requires KindServer(w)
    ensures var p := PostJwsSpec(w, c, url, request); var n := SendIndex(c);
      && p.result == Ok(w.post(n)) && KindReply(w.post(n))
      && |p.client.trace| == n + 1
      && p.client.nonce.Some? && p.client.kid == c.kid
  {
    assert KindReply(w.post(SendIndex(c)));
  }

  lemma {:induction false} KindPollAuthorization(w: World, c: Client, url: string, attempts: nat)
    requires KindServer(w) && c.nonce.Some? && AuthorizationReadyWithin(w, |c.trace|, attempts)
    ensures var o := PollAuthorizationSpec(w, c, url, attempts);
      o.result == Ok(()) && o.client.nonce.Some? && o.client.kid == c.kid
    decreases url, attempts
  {
    KindPost(w, c, url, Fetch);
    var a := GetAuthorizationSpec(w, c, url);
    if a.result.value.status == "pending" {
      assert AuthorizationReadyWithin(w, |a.client.trace|, attempts - 1);
      KindPollAuthorization(w, a.client, url, attempts - 1);
    }
  }

  lemma {:induction false} KindPollOrder(w: World, c: Client, url: string, attempts: nat)
    requires KindServer(w) && c.nonce.Some? && OrderReadyWithin(w, |c.trace|, attempts)
    ensures var o := PollOrderSpec(w, c, url, attempts);
      && o.result.Ok? && o.result.value.certificate.Some?
      && o.client.nonce.Some? && o.client.kid == c.kid
    decreases url, attempts
  {
    KindPost(w, c, url, Fetch);
    var o := GetOrderSpec(w, c, url);
    if o.result.value.status != "valid" {
      assert OrderReadyWithin(w, |o.client.trace|, attempts - 1);
      KindPollOrder(w, o.client, url, attempts - 1);
    }
  }

  lemma KindRespond(w: World, c: Client, challengeUrl: string, token: string, url: string)
    requires KindServer(w) && NeverStalls(w)
    ensures var o := RespondSpec(w, c, challengeUrl, token, url);
      o.result == Ok(()) && o.client.nonce.Some? && o.client.kid == c.kid
  {
    KindPost(w, c, challengeUrl, Respond(token));
    var responded := PostJwsSpec(w, c, challengeUrl, Respond(token)).client;
    assert AuthorizationReadyWithin(w, |responded.trace|, 20);
    KindPollAuthorization(w, responded, url, MAX_ATTEMPTS);
  }

  lemma KindAuthorize(w: World, keyAuthorization: string -> string, c: Client, url: string)
    requires KindServer(w) && NeverStalls(w)
    ensures var o := AuthorizeSpec(w, keyAuthorization, c, url);
      o.result == Ok(()) && o.client.nonce.Some? && o.client.kid == c.kid
  {
    KindPost(w, c, url, Fetch);
    var a := GetAuthorizationSpec(w, c, url);
    FirstOfferIff(a.result.value);
    var challenge := FindHttp01(a.result.value.challenges).value;
    var e := Publish(challenge.token.value, keyAuthorization(challenge.token.value));
    KindRespond(w, a.client.(trace := a.client.trace + [e]), challenge.url, challenge.token.value, url);
  }

  lemma {:induction false} KindAuthorizeAll(w: World, keyAuthorization: string -> string, c: Client, urls: seq<string>)
    requires KindServer(w) && NeverStalls(w) && c.nonce.Some?
    ensures var o := AuthorizeAllSpec(w, keyAuthorization, c, urls);
      o.result == Ok(()) && o.client.nonce.Some? && o.client.kid == c.kid
    decreases |urls|
  {
    if urls != [] {
      KindAuthorize(w, keyAuthorization, c, urls[0]);
      KindAuthorizeAll(w, keyAuthorization, AuthorizeSpec(w, keyAuthorization, c, urls[0]).client, urls[1..]);
    }
  }

  lemma KindPrepare(w: World, d: Directory, keyAuthorization: string -> string)
    requires KindServer(w) && NeverStalls(w)
    ensures var o := PrepareSpec(w, d, keyAuthorization);
      o.result.Ok? && o.client.nonce.Some? && o.client.kid.Some?
  {
    var c := Client(None, None, []);
    KindPost(w, c, d.newAccount, NewAccount);
    var account := CreateAccountSpec(w, d, c);
    KindPost(w, account.client, d.newOrder, NewOrder);
    var created := OrderSpec(w, d, c);
    KindAuthorizeAll(w, keyAuthorization, created.client, created.result.value.0.authorizations);
  }

  lemma KindFinish(w: World, c: Client, order: AcmeOrder, orderUrl: string)
    requires KindServer(w) && NeverStalls(w) && c.kid.Some?
    ensures var o := FinishSpec(w, c, order, orderUrl);
      o.result.Ok? && o.result.value.1 == w.keyPem.value
  {
    KindPost(w, c, order.finalize, Finalize(order));
    var finalized := FinalizeSpec(w, c, order).client;
    assert OrderReadyWithin(w, |finalized.trace|, 20);
    KindPollOrder(w, finalized, orderUrl, MAX_ATTEMPTS);
    var ready := FinalizeAndPollSpec(w, c, order, orderUrl);
    DownloadOkIff(w, ready.client, ready.result.value.0);
    assert KindReply(w.post(SendIndex(ready.client)));
  }

  /** Whatever the number of authorizations, and however long each stays pending and the order
      stays pending or processing, short of twenty answers in a row: a server that otherwise
      answers well has the client return the text of its last answer and the key of the request. */
  lemma SlowServerCertifies(w: World, d: Directory, keyAuthorization: string -> string)
    requires KindServer(w) && NeverStalls(w)
    ensures var o := ObtainSpec(w, d, keyAuthorization); var n := |o.client.trace|;
      && n > 0
      && w.post(n - 1).Answer? && w.post(n - 1).text.Some?
      && o.result == Ok((w.post(n - 1).text.value, w.keyPem.value))
  {
    KindPrepare(w, d, keyAuthorization);
    var ready := PrepareSpec(w, d, keyAuthorization);
    KindFinish(w, ready.client, ready.result.value.0, ready.result.value.1);
    CertificateIsTheLastAnswer(w, d, keyAuthorization);
  }

  // ---------------------------------------------------------------- there are such servers

  const OFFER: AcmeChallenge := AcmeChallenge("http-01", "challenge", Some("token"), "pending")

  /** Two answers out of three show the order unfinished, one out of two the authorizations. */
  function SlowReply(i: nat): Reply {
    Answer(
      Some("nonce"), Some("location"), true, Some("text"), true,
      Some(AcmeOrder(if i % 3 == 0 then "processing" else if i % 3 == 1 then "pending" else "valid",
                     ["one", "two"], "finalize", Some("certificate"))),
      Some(AcmeAuthorization(if i % 2 == 0 then "pending" else "valid", [OFFER])))
  }

  function SlowServer(): World {
    World(i => Some("nonce"), (i: nat) => SlowReply(i), i => true, Some("key"))
  }

  lemma SlowServerIsKind()
    ensures KindServer(SlowServer()) && NeverStalls(SlowServer())
  {
    var w := SlowServer();
    forall i: nat ensures KindReply(w.post(i)) {
      assert w.post(i).authorization.value.challenges[0] == OFFER;
    }
    forall i: nat ensures OrderReadyWithin(w, i, 20) {
      var j := 3 * (i / 3) + 2;
      assert i <= j < i + 20 && j % 3 == 2 && w.post(j).order.value.status == "valid";
    }
    forall i: nat ensures AuthorizationReadyWithin(w, i, 20) {
      var j := 2 * (i / 2) + 1;
      assert i <= j < i + 20 && j % 2 == 1 && w.post(j).authorization.value.status == "valid";
    }
  }
}
