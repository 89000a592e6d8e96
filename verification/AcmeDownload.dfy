/** What the ACME client takes for a certificate: the body of the last answer, of any status. */
module AcmeDownload {
  import opened Common
  import opened Acme
  import opened AcmeRuns

  // ---------------------------------------------------------------- one download

  /** The download POST can go out: there is a nonce for it, an account and a signature. */
  predicate CanSend(w: World, c: Client) {
    && (c.nonce.Some? || w.head(|c.trace|).Some?)
    && c.kid.Some?
    && w.signs(SendIndex(c))
  }

  /** The length of the trace when the POST goes out. */
  function SendIndex(c: Client): nat {
    |c.trace| + if c.nonce.Some? then 0 else 1
  }

  /** What each outcome of a POST means; the body must be JSON before the status counts. */
  lemma PostJwsAnswers(w: World, c: Client, url: string, request: Request)
    ensures var r := PostJwsSpec(w, c, url, request).result; var n := SendIndex(c);
      var nonce := c.nonce.Some? || w.head(|c.trace|).Some?;
      var sent := nonce && w.signs(n);
      var reply := w.post(n);
      && (r == Err(NoNonce) <==> !nonce)
      && (r == Err(NoSignature) <==> nonce && !w.signs(n))
      && (r == Err(Lost) <==> sent && reply.Unreachable?)
      && (r == Err(Garbled) <==> sent && reply.Answer? && (reply.text.None? || !reply.json))
      && (r == Err(Refused) <==> sent && reply.Answer? && reply.text.Some? && reply.json && !reply.success)
      && (r.Ok? <==> sent && reply.Answer? && reply.text.Some? && reply.json && reply.success)
      && (r.Ok? ==> r.value == reply)
  {
  }

  /** A download succeeds exactly when the POST went out and an answer with a readable body came. */
  lemma DownloadOkIff(w: World, c: Client, url: string)
    ensures var o := DownloadSpec(w, c, url);
      && (Posts(o.client.trace) == Posts(c.trace) + 1 <==> CanSend(w, c))
      && (o.result.Ok? <==> CanSend(w, c) && w.post(SendIndex(c)).Answer? && w.post(SendIndex(c)).text.Some?)
  {
    var t := TakeNonceSpec(w, c);
    TakeNonceTraffic(w, c);
    if t.result.Ok? && c.kid.Some? && w.signs(|t.client.trace|) {
      Snoc(t.client.trace, Post(url, t.result.value, c.kid, Download, w.post(|t.client.trace|)));
    }
  }

  /** The certificate that a run returns is the text of its last answer; that answer was a
      success exactly when the server's answer to the last POST was. */
  lemma CertificateIsTheLastAnswer(w: World, d: Directory, keyAuthorization: string -> string)
    requires ObtainSpec(w, d, keyAuthorization).result.Ok?
    ensures var o := ObtainSpec(w, d, keyAuthorization); var tr := o.client.trace;
      && EndsInDownload(tr, o.result.value.0)
      && tr[|tr| - 1].reply == w.post(|tr| - 1)
      && (Succeeded(tr[|tr| - 1]) <==> w.post(|tr| - 1).success)
  {
    var ready := PrepareSpec(w, d, keyAuthorization);
    FinishEndsInDownload(w, ready.client, ready.result.value.0, ready.result.value.1);
  }

  lemma FinishEndsInDownload(w: World, c: Client, order: AcmeOrder, orderUrl: string)
    requires FinishSpec(w, c, order, orderUrl).result.Ok?
    ensures var o := FinishSpec(w, c, order, orderUrl); var tr := o.client.trace;
      EndsInDownload(tr, o.result.value.0) && tr[|tr| - 1].reply == w.post(|tr| - 1)
  {
    var ready := FinalizeAndPollSpec(w, c, order, orderUrl);
    DownloadedText(w, ready.client, ready.result.value.0);
    LastAnswer(w, ready.client, ready.result.value.0);
  }

  lemma LastAnswer(w: World, c: Client, url: string)
    requires DownloadSpec(w, c, url).result.Ok?
    ensures var tr := DownloadSpec(w, c, url).client.trace;
      tr != [] && tr[|tr| - 1].Post? && tr[|tr| - 1].reply == w.post(|tr| - 1)
  {
  }

  // ---------------------------------------------------------------- servers that agree for a while

  /** The two servers differ at most in their answers to POSTs from the `k`-th event on. */
  ghost predicate SameBefore(w: World, v: World, k: nat) {
    && w.head == v.head && w.signs == v.signs && w.keyPem == v.keyPem
    && forall i: nat :: i < k ==> w.post(i) == v.post(i)
  }

  lemma PostJwsAgrees(w: World, v: World, k: nat, c: Client, url: string, request: Request)
    requires SameBefore(w, v, k) && |PostJwsSpec(w, c, url, request).client.trace| <= k
    ensures PostJwsSpec(v, c, url, request) == PostJwsSpec(w, c, url, request)
  {
  }

  lemma OrderAgrees(w: World, v: World, k: nat, d: Directory, c: Client)
    requires SameBefore(w, v, k) && |OrderSpec(w, d, c).client.trace| <= k
    ensures OrderSpec(v, d, c) == OrderSpec(w, d, c)
  {
    var account := CreateAccountSpec(w, d, c);
    if account.result.Ok? { PostJwsTraffic(w, account.client, d.newOrder, NewOrder); }
    PostJwsAgrees(w, v, k, c, d.newAccount, NewAccount);
    if account.result.Ok? { PostJwsAgrees(w, v, k, account.client, d.newOrder, NewOrder); }
  }

  lemma {:induction false} PollAuthorizationAgrees(w: World, v: World, k: nat, c: Client, url: string, attempts: nat)
    requires SameBefore(w, v, k) && |PollAuthorizationSpec(w, c, url, attempts).client.trace| <= k
    ensures PollAuthorizationSpec(v, c, url, attempts) == PollAuthorizationSpec(w, c, url, attempts)
    decreases url, attempts
  {
    if attempts > 0 {
      var a := GetAuthorizationSpec(w, c, url);
      PollAuthorizationTraffic(w, a.client, url, attempts - 1);
      PostJwsAgrees(w, v, k, c, url, Fetch);
      if a.result.Ok? && a.result.value.status == "pending" {
        PollAuthorizationAgrees(w, v, k, a.client, url, attempts - 1);
      }
    }
  }

  lemma {:induction false} PollOrderAgrees(w: World, v: World, k: nat, c: Client, url: string, attempts: nat)
    requires SameBefore(w, v, k) && |PollOrderSpec(w, c, url, attempts).client.trace| <= k
    ensures PollOrderSpec(v, c, url, attempts) == PollOrderSpec(w, c, url, attempts)
    decreases url, attempts
  {
    if attempts > 0 {
      var o := GetOrderSpec(w, c, url);
      PollOrderTraffic(w, o.client, url, attempts - 1);
      PostJwsAgrees(w, v, k, c, url, Fetch);
      if o.result.Ok? && o.result.value.status != VALID && OrderWaits(o.result.value.status) {
        PollOrderAgrees(w, v, k, o.client, url, attempts - 1);
      }
    }
  }

  lemma RespondAgrees(w: World, v: World, k: nat, c: Client, challengeUrl: string, token: string, url: string)
    requires SameBefore(w, v, k) && |RespondSpec(w, c, challengeUrl, token, url).client.trace| <= k
    ensures RespondSpec(v, c, challengeUrl, token, url) == RespondSpec(w, c, challengeUrl, token, url)
  {
    var responded := PostJwsSpec(w, c, challengeUrl, Respond(token));
    PollAuthorizationTraffic(w, responded.client, url, MAX_ATTEMPTS);
    PostJwsAgrees(w, v, k, c, challengeUrl, Respond(token));
    if responded.result.Ok? { PollAuthorizationAgrees(w, v, k, responded.client, url, MAX_ATTEMPTS); }
  }

  lemma AnswerAgrees(w: World, v: World, k: nat, keyAuthorization: string -> string, c: Client, challengeUrl: string,
                     token: string, url: string)
    requires SameBefore(w, v, k) && |AnswerSpec(w, keyAuthorization, c, challengeUrl, token, url).client.trace| <= k
    ensures AnswerSpec(v, keyAuthorization, c, challengeUrl, token, url) ==
            AnswerSpec(w, keyAuthorization, c, challengeUrl, token, url)
  {
    var published := c.(trace := c.trace + [Publish(token, keyAuthorization(token))]);
    RespondAgrees(w, v, k, published, challengeUrl, token, url);
  }

  lemma AnswerGrows(w: World, keyAuthorization: string -> string, c: Client, challengeUrl: string, token: string,
                    url: string)
    ensures |c.trace| <= |AnswerSpec(w, keyAuthorization, c, challengeUrl, token, url).client.trace|
  {
    RespondTraffic(w, c.(trace := c.trace + [Publish(token, keyAuthorization(token))]), challengeUrl, token, url);
  }

  lemma AuthorizeAgrees(w: World, v: World, k: nat, keyAuthorization: string -> string, c: Client, url: string)
    requires SameBefore(w, v, k) && |AuthorizeSpec(w, keyAuthorization, c, url).client.trace| <= k
    ensures AuthorizeSpec(v, keyAuthorization, c, url) == AuthorizeSpec(w, keyAuthorization, c, url)
  {
    var a := GetAuthorizationSpec(w, c, url);
    if a.result.Ok? {
      var challenge := FindHttp01(a.result.value.challenges);
      if challenge.Some? && challenge.value.token.Some? {
        AnswerGrows(w, keyAuthorization, a.client, challenge.value.url, challenge.value.token.value, url);
        AnswerAgrees(w, v, k, keyAuthorization, a.client, challenge.value.url, challenge.value.token.value, url);
      }
    }
    PostJwsAgrees(w, v, k, c, url, Fetch);
  }

  lemma AuthorizeGrows(w: World, keyAuthorization: string -> string, c: Client, url: string)
    ensures |c.trace| <= |AuthorizeSpec(w, keyAuthorization, c, url).client.trace|
  {
    var a := GetAuthorizationSpec(w, c, url);
    GetAuthorizationTraffic(w, c, url);
    if a.result.Ok? {
      var challenge := FindHttp01(a.result.value.challenges);
      if challenge.Some? && challenge.value.token.Some? {
        AnswerGrows(w, keyAuthorization, a.client, challenge.value.url, challenge.value.token.value, url);
      }
    }
  }

  lemma {:induction false} AuthorizeAllGrows(w: World, keyAuthorization: string -> string, c: Client, urls: seq<string>)
    ensures |c.trace| <= |AuthorizeAllSpec(w, keyAuthorization, c, urls).client.trace|
    decreases |urls|
  {
    if urls != [] {
      AuthorizeGrows(w, keyAuthorization, c, urls[0]);
      AuthorizeAllGrows(w, keyAuthorization, AuthorizeSpec(w, keyAuthorization, c, urls[0]).client, urls[1..]);
    }
  }

  lemma {:induction false} AuthorizeAllAgrees(w: World, v: World, k: nat, keyAuthorization: string -> string, c: Client,
                                              urls: seq<string>)
    requires SameBefore(w, v, k) && |AuthorizeAllSpec(w, keyAuthorization, c, urls).client.trace| <= k
    ensures AuthorizeAllSpec(v, keyAuthorization, c, urls) == AuthorizeAllSpec(w, keyAuthorization, c, urls)
    decreases |urls|
  {
    if urls != [] {
      var first := AuthorizeSpec(w, keyAuthorization, c, urls[0]);
      AuthorizeAllGrows(w, keyAuthorization, first.client, urls[1..]);
      AuthorizeAgrees(w, v, k, keyAuthorization, c, urls[0]);
      if first.result.Ok? { AuthorizeAllAgrees(w, v, k, keyAuthorization, first.client, urls[1..]); }
    }
  }

  lemma PrepareAgrees(w: World, v: World, k: nat, d: Directory, keyAuthorization: string -> string)
    requires SameBefore(w, v, k) && |PrepareSpec(w, d, keyAuthorization).client.trace| <= k
    ensures PrepareSpec(v, d, keyAuthorization) == PrepareSpec(w, d, keyAuthorization)
  {
    var created := OrderSpec(w, d, Client(None, None, []));
    if created.result.Ok? {
      var urls := created.result.value.0.authorizations;
      AuthorizeAllGrows(w, keyAuthorization, created.client, urls);
      AuthorizeAllAgrees(w, v, k, keyAuthorization, created.client, urls);
    }
    OrderAgrees(w, v, k, d, Client(None, None, []));
  }

  lemma FinalizeAndPollAgrees(w: World, v: World, k: nat, c: Client, order: AcmeOrder, orderUrl: string)
    requires SameBefore(w, v, k) && |FinalizeAndPollSpec(w, c, order, orderUrl).client.trace| <= k
    ensures FinalizeAndPollSpec(v, c, order, orderUrl) == FinalizeAndPollSpec(w, c, order, orderUrl)
  {
    var finalized := FinalizeSpec(w, c, order);
    PollOrderTraffic(w, finalized.client, orderUrl, MAX_ATTEMPTS);
    if w.keyPem.Some? { PostJwsAgrees(w, v, k, c, order.finalize, Finalize(order)); }
    assert FinalizeSpec(v, c, order) == finalized;
    if finalized.result.Ok? { PollOrderAgrees(w, v, k, finalized.client, orderUrl, MAX_ATTEMPTS); }
  }

  // ---------------------------------------------------------------- the status of the download is not looked at

  lemma DownloadIsTheText(w: World, c: Client, url: string)
    requires DownloadSpec(w, c, url).result.Ok?
    ensures var n := SendIndex(c); var o := DownloadSpec(w, c, url);
      w.post(n).Answer? && w.post(n).text == Some(o.result.value) && |o.client.trace| == n + 1
  {
  }

  lemma DownloadIgnoresStatus(w: World, v: World, c: Client, url: string)
    requires DownloadSpec(w, c, url).result.Ok? && w.head == v.head && w.signs == v.signs
    requires v.post(SendIndex(c)).Answer? && v.post(SendIndex(c)).text == w.post(SendIndex(c)).text
    ensures DownloadSpec(v, c, url).result == DownloadSpec(w, c, url).result
    ensures |DownloadSpec(v, c, url).client.trace| == |DownloadSpec(w, c, url).client.trace| == SendIndex(c) + 1
  {
    DownloadOkIff(w, c, url);
    DownloadOkIff(v, c, url);
    DownloadIsTheText(w, c, url);
    DownloadIsTheText(v, c, url);
  }

  /** The two servers differ at most from event `last` on, and there give the same text. */
  ghost predicate SameText(w: World, v: World, last: nat) {
    SameBefore(w, v, last) && v.post(last).Answer? && w.post(last).Answer? && v.post(last).text == w.post(last).text
  }

  lemma FinishIgnoresStatus(w: World, v: World, c: Client, order: AcmeOrder, orderUrl: string, last: nat)
    requires FinishSpec(w, c, order, orderUrl).result.Ok?
    requires |FinishSpec(w, c, order, orderUrl).client.trace| == last + 1 && SameText(w, v, last)
    ensures |c.trace| <= last
    ensures FinishSpec(v, c, order, orderUrl).result == FinishSpec(w, c, order, orderUrl).result
    ensures |FinishSpec(v, c, order, orderUrl).client.trace| == last + 1
  {
    var issued := FinalizeAndPollSpec(w, c, order, orderUrl);
    FinalizeAndPollTraffic(w, c, order, orderUrl);
    DownloadOkIff(w, issued.client, issued.result.value.0);
    DownloadEnds(w, issued.client, issued.result.value.0);
    FinalizeAndPollAgrees(w, v, last, c, order, orderUrl);
    DownloadIgnoresStatus(w, v, issued.client, issued.result.value.0);
  }

  lemma DownloadEnds(w: World, c: Client, url: string)
    requires DownloadSpec(w, c, url).result.Ok?
    ensures |DownloadSpec(w, c, url).client.trace| == SendIndex(c) + 1
  {
  }

  /** Against any two servers that differ only in their answers to the download, but for its
      text, a run that returns a certificate against the one returns the same against the other. */
  lemma DownloadStatusIsIgnored(w: World, v: World, d: Directory, keyAuthorization: string -> string, last: nat)
    requires ObtainSpec(w, d, keyAuthorization).result.Ok?
    requires |ObtainSpec(w, d, keyAuthorization).client.trace| == last + 1 && SameText(w, v, last)
    ensures ObtainSpec(v, d, keyAuthorization).result == ObtainSpec(w, d, keyAuthorization).result
    ensures |ObtainSpec(v, d, keyAuthorization).client.trace| == last + 1
  {
    var ready := PrepareSpec(w, d, keyAuthorization);
    FinishIgnoresStatus(w, v, ready.client, ready.result.value.0, ready.result.value.1, last);
    PrepareAgrees(w, v, last, d, keyAuthorization);
  }

  /** The same server, but event `k` is answered with an error status. */
  function Refusing(w: World, k: nat): World {
    w.(post := (i: nat) => if i == k && w.post(i).Answer? then w.post(i).(success := false) else w.post(i))
  }

  /** Every run that returns a certificate would return the same text had the server refused the
      download: the text of an error page. */
  lemma ErrorPageBecomesTheCertificate(w: World, d: Directory, keyAuthorization: string -> string)
    requires ObtainSpec(w, d, keyAuthorization).result.Ok?
    ensures var o := ObtainSpec(w, d, keyAuthorization);
      && o.client.trace != []
      && var p := ObtainSpec(Refusing(w, |o.client.trace| - 1), d, keyAuthorization);
         && p.result == o.result
         && EndsInDownload(p.client.trace, p.result.value.0)
         && !Succeeded(p.client.trace[|p.client.trace| - 1])
  {
    var last := |ObtainSpec(w, d, keyAuthorization).client.trace| - 1;
    CertificateIsTheLastAnswer(w, d, keyAuthorization);
    var v := Refusing(w, last);
    assert SameText(w, v, last);
    DownloadStatusIsIgnored(w, v, d, keyAuthorization, last);
    CertificateIsTheLastAnswer(v, d, keyAuthorization);
  }

  // ---------------------------------------------------------------- a server for which all goes well

  const CHALLENGE: AcmeChallenge := AcmeChallenge("http-01", "challenge", Some("token"), VALID)

  /** An answer with whatever any request of the client asks for. */
  const ALL_WELL: Reply := Answer(
    Some("nonce"), Some("location"), true, Some("text"), true,
    Some(AcmeOrder(VALID, ["authorization"], "finalize", Some("certificate"))),
    Some(AcmeAuthorization(VALID, [CHALLENGE])))

  function Kind(): World {
    World(i => Some("nonce"), i => ALL_WELL, i => true, Some("key"))
  }

  lemma KindPost(c: Client, url: string, request: Request)
    ensures PostJwsSpec(Kind(), c, url, request).result == Ok(ALL_WELL)
  {
  }

  lemma KindServerCertifies(d: Directory, keyAuthorization: string -> string)
    ensures ObtainSpec(Kind(), d, keyAuthorization).result == Ok(("text", "key"))
  {
    var w := Kind();
    forall c, url, request ensures PostJwsSpec(w, c, url, request).result == Ok(ALL_WELL) { KindPost(c, url, request); }
    forall c, url, attempts: nat | attempts > 0 ensures PollAuthorizationSpec(w, c, url, attempts).result == Ok(()) {}
    assert FindHttp01([CHALLENGE]) == Some(CHALLENGE);
  }

  /** There is a server that has the client return, as a certificate, the body of an answer with
      an error status. */
  lemma ErrorPageIsReturned(d: Directory, keyAuthorization: string -> string)
    ensures exists w :: ReturnsErrorPage(w, d, keyAuthorization)
  {
    var w := Kind();
    KindServerCertifies(d, keyAuthorization);
    ErrorPageBecomesTheCertificate(w, d, keyAuthorization);
    assert ReturnsErrorPage(Refusing(w, |ObtainSpec(w, d, keyAuthorization).client.trace| - 1), d, keyAuthorization);
  }

  predicate ReturnsErrorPage(w: World, d: Directory, keyAuthorization: string -> string) {
    var o := ObtainSpec(w, d, keyAuthorization);
    && o.result.Ok?
    && EndsInDownload(o.client.trace, o.result.value.0)
    && !Succeeded(o.client.trace[|o.client.trace| - 1])
  }
}
