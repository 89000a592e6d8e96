/** The traffic between the ACME client (crates/open-web-server-gateway/src/acme.rs, RFC 8555) and
    an arbitrary server: what a trace tells, and the order the protocol demands of it. */
module Acme {
  import opened Common

  type Nonce = string

  datatype AcmeOrder = AcmeOrder(
    status: string, authorizations: seq<string>, finalize: string, certificate: Option<string>)

  datatype AcmeChallenge = AcmeChallenge(challengeType: string, url: string, token: Option<string>, status: string)

  datatype AcmeAuthorization = AcmeAuthorization(status: string, challenges: seq<AcmeChallenge>)

  /** The answer to a POST: headers, status, the text of the body if it could be read, and what
      the body parses to (`json` also covers the empty body). */
  datatype Reply =
    | Unreachable
    | Answer(nonce: Option<Nonce>, location: Option<string>, success: bool, text: Option<string>, json: bool,
             order: Option<AcmeOrder>, authorization: Option<AcmeAuthorization>)

  datatype Directory = Directory(newNonce: string, newAccount: string, newOrder: string)

  /** What a POST is for. Fetch is POST-as-GET. */
  datatype Request =
    | NewAccount
    | NewOrder
    | Fetch
    | Respond(token: string)
    | Finalize(order: AcmeOrder)
    | Download

  datatype Event =
    | Head(handedOut: Option<Nonce>)
    | Post(url: string, nonce: Nonce, kid: Option<string>, request: Request, reply: Reply)
    | Publish(token: string, keyAuthorization: string)
    | Unpublish(token: string)

  type Trace = seq<Event>

  /** The outside world, indexed by the length of the trace so far: the answers to newNonce and
      to POSTs, whether signing succeeds, and the key for the certificate request. */
  datatype World = World(head: nat -> Option<Nonce>, post: nat -> Reply, signs: nat -> bool, keyPem: Option<string>)

  datatype Failure =
    | NoDirectory | NoNonce | NoKid | NoSignature
    | Lost | Garbled | Refused | Unparsed
    | BadStatus | TimedOut | NoChallenge | NoCertificate

  const VALID: string := "valid"
  const MAX_ATTEMPTS: nat := 20

  // ---------------------------------------------------------------- nonces

  function HandedOut(e: Event): Option<Nonce> {
    if e.Head? then e.handedOut else if e.Post? && e.reply.Answer? then e.reply.nonce else None
  }

  /** The server handed out `n`, and no POST was sent since. */
  predicate Stored(tr: Trace, n: Nonce)
    decreases |tr|
  {
    tr != [] &&
    var front, last := tr[..|tr| - 1], tr[|tr| - 1];
    HandedOut(last) == Some(n) || (!last.Post? && Stored(front, n))
  }

  /** Every POST carries a nonce that the server handed out after the POST before. */
  predicate Sourced(tr: Trace)
    decreases |tr|
  {
    tr == [] ||
    var front, last := tr[..|tr| - 1], tr[|tr| - 1];
    Sourced(front) && (last.Post? ==> Stored(front, last.nonce))
  }

  function Handed(tr: Trace): seq<Nonce>
    decreases |tr|
  {
    if tr == [] then []
    else
      var n := HandedOut(tr[|tr| - 1]);
      Handed(tr[..|tr| - 1]) + (if n.Some? then [n.value] else [])
  }

  function Sent(tr: Trace): seq<Nonce>
    decreases |tr|
  {
    if tr == [] then []
    else Sent(tr[..|tr| - 1]) + (if tr[|tr| - 1].Post? then [tr[|tr| - 1].nonce] else [])
  }

  predicate NoRepeat(ns: seq<Nonce>) {
    forall i, j :: 0 <= i < j < |ns| ==> ns[i] != ns[j]
  }

  lemma NoRepeatSnoc(ns: seq<Nonce>, n: Nonce)
    ensures NoRepeat(ns + [n]) <==> NoRepeat(ns) && n !in ns
  {
    var all := ns + [n];
    if NoRepeat(all) {
      forall i | 0 <= i < |ns| ensures ns[i] != n { assert all[i] != all[|ns|]; }
      forall i, j | 0 <= i < j < |ns| ensures ns[i] != ns[j] { assert all[i] != all[j]; }
    }
  }

  lemma {:induction false} StoredWasHanded(tr: Trace, n: Nonce)
    requires Stored(tr, n)
    ensures n in Handed(tr)
    decreases |tr|
  {
    var front, last := tr[..|tr| - 1], tr[|tr| - 1];
    if HandedOut(last) != Some(n) { StoredWasHanded(front, n); }
  }

  lemma {:induction false} SentWasHandedBefore(tr: Trace)
    requires tr != [] && Sourced(tr)
    ensures forall n :: n in Sent(tr) ==> n in Handed(tr[..|tr| - 1])
    decreases |tr|
  {
    var front, last := tr[..|tr| - 1], tr[|tr| - 1];
    if front != [] { SentWasHandedBefore(front); }
    if last.Post? { StoredWasHanded(front, last.nonce); }
  }

  lemma {:induction false} StoredIsUnsent(tr: Trace, n: Nonce)
    requires Sourced(tr) && Stored(tr, n) && NoRepeat(Handed(tr))
    ensures n !in Sent(tr)
    decreases |tr|
  {
    var front, last := tr[..|tr| - 1], tr[|tr| - 1];
    var h := HandedOut(last);
    if h.Some? { NoRepeatSnoc(Handed(front), h.value); } else { assert Handed(tr) == Handed(front); }
    if h == Some(n) {
      SentWasHandedBefore(tr);
    } else {
      StoredIsUnsent(front, n);
    }
  }

  /** RFC 8555 section 6.5: if the server never hands out a nonce twice, none is sent twice. */
  lemma {:induction false} NoNonceIsSentTwice(tr: Trace)
    requires Sourced(tr) && NoRepeat(Handed(tr))
    ensures NoRepeat(Sent(tr))
    decreases |tr|
  {
    if tr != [] {
      var front, last := tr[..|tr| - 1], tr[|tr| - 1];
      var h := HandedOut(last);
      if h.Some? { NoRepeatSnoc(Handed(front), h.value); } else { assert Handed(tr) == Handed(front); }
      NoNonceIsSentTwice(front);
      if last.Post? {
        StoredIsUnsent(front, last.nonce);
        NoRepeatSnoc(Sent(front), last.nonce);
      }
    }
  }

  // ---------------------------------------------------------------- what a trace has published, and counts

  /** The tokens published in the run and not removed yet. */
  function Published(tr: Trace): map<string, string>
    decreases |tr|
  {
    if tr == [] then map[]
    else
      var before, last := Published(tr[..|tr| - 1]), tr[|tr| - 1];
      if last.Publish? then before[last.token := last.keyAuthorization]
      else if last.Unpublish? then before - {last.token}
      else before
  }

  /** All tokens the run has published or removed. */
  function Touched(tr: Trace): set<string>
    decreases |tr|
  {
    if tr == [] then {}
    else
      var last := tr[|tr| - 1];
      Touched(tr[..|tr| - 1]) + (if last.Publish? || last.Unpublish? then {last.token} else {})
  }

  function Posts(tr: Trace): nat
    decreases |tr|
  {
    if tr == [] then 0 else Posts(tr[..|tr| - 1]) + (if tr[|tr| - 1].Post? then 1 else 0)
  }

  // ---------------------------------------------------------------- the order of the protocol

  predicate Succeeded(e: Event) {
    e.Post? && e.reply.Answer? && e.reply.success
  }

  predicate SaysValid(e: Event, authorization: string) {
    && Succeeded(e) && e.url == authorization && e.request.Fetch?
    && e.reply.authorization.Some? && e.reply.authorization.value.status == VALID
  }

  predicate SaysIssued(e: Event, certificate: string) {
    && Succeeded(e) && e.request.Fetch?
    && e.reply.order.Some? && e.reply.order.value.status == VALID
    && e.reply.order.value.certificate == Some(certificate)
  }

  predicate SaysOrdered(e: Event, order: AcmeOrder) {
    Succeeded(e) && e.request.NewOrder? && e.reply.order == Some(order)
  }

  predicate SaysRegistered(e: Event, kid: string) {
    Succeeded(e) && e.request.NewAccount? && e.reply.location == Some(kid)
  }

  predicate Offers(e: Event, url: string, token: string) {
    && Succeeded(e) && e.request.Fetch? && e.reply.authorization.Some?
    && exists c :: c in e.reply.authorization.value.challenges
                   && c.challengeType == "http-01" && c.url == url && c.token == Some(token)
  }

  predicate SeenValid(tr: Trace, authorization: string) {
    exists e :: e in tr && SaysValid(e, authorization)
  }

  predicate SeenIssued(tr: Trace, orderUrl: string, certificate: string) {
    exists e :: e in tr && SaysIssued(e, certificate) && e.url == orderUrl
  }

  /** Some order created in the run was seen valid with this certificate URL. */
  predicate Issued(tr: Trace, certificate: string) {
    exists e :: e in tr && SaysIssued(e, certificate) && OrderedAt(tr, e.url)
  }

  predicate OrderedAt(tr: Trace, orderUrl: string) {
    exists e :: e in tr && Succeeded(e) && e.request.NewOrder? && e.reply.location == Some(orderUrl)
  }

  /** An order created in the run lists this authorization. */
  predicate Listed(tr: Trace, authorization: string) {
    exists e :: e in tr && Succeeded(e) && e.request.NewOrder? && e.reply.order.Some?
             && authorization in e.reply.order.value.authorizations
  }

  predicate Ordered(tr: Trace, order: AcmeOrder) {
    exists e :: e in tr && SaysOrdered(e, order)
  }

  predicate Registered(tr: Trace, kid: string) {
    exists e :: e in tr && SaysRegistered(e, kid)
  }

  predicate Offered(tr: Trace, url: string, token: string) {
    exists e :: e in tr && Offers(e, url, token)
  }

  predicate AllOffered(tr: Trace, challenges: seq<AcmeChallenge>) {
    forall c :: c in challenges && c.challengeType == "http-01" && c.token.Some? ==> Offered(tr, c.url, c.token.value)
  }

  predicate Downloaded(tr: Trace, text: string) {
    exists e :: e in tr && e.Post? && e.request.Download? && e.reply.Answer? && e.reply.text == Some(text)
  }

  /** What must have happened before a POST. A challenge is answered only while its key
      authorization is published, an order is finalized only after each of its authorizations
      was seen valid, a certificate is downloaded only from the URL in that order once it was seen
      valid, nothing is fetched but orders of the run and their authorizations, accounts and orders
      are asked for where the directory says, and only newAccount is signed with the bare key. */
  predicate Permitted(tr: Trace, d: Directory, keyAuthorization: string -> string, kid: Option<string>, url: string,
                      request: Request)
  {
    && (if kid.None? then request.NewAccount? else Registered(tr, kid.value))
    && match request
       case NewAccount => url == d.newAccount
       case NewOrder => url == d.newOrder
       case Fetch => OrderedAt(tr, url) || Listed(tr, url)
       case Respond(token) =>
         token in Published(tr) && Published(tr)[token] == keyAuthorization(token) && Offered(tr, url, token)
       case Finalize(order) =>
         url == order.finalize && Ordered(tr, order) && forall a :: a in order.authorizations ==> SeenValid(tr, a)
       case Download => Issued(tr, url)
  }

  predicate Orderly(tr: Trace, d: Directory, keyAuthorization: string -> string)
    decreases |tr|
  {
    tr == [] ||
    var front, last := tr[..|tr| - 1], tr[|tr| - 1];
    && Orderly(front, d, keyAuthorization)
    && (last.Post? ==> Permitted(front, d, keyAuthorization, last.kid, last.url, last.request))
  }

  /** In an orderly trace every POST was permitted by what came before it. */
  lemma {:induction false} EveryPostWasPermitted(tr: Trace, d: Directory, keyAuthorization: string -> string, i: nat)
    requires Orderly(tr, d, keyAuthorization) && i < |tr| && tr[i].Post?
    ensures Permitted(tr[..i], d, keyAuthorization, tr[i].kid, tr[i].url, tr[i].request)
    decreases |tr|
  {
    var n := |tr| - 1;
    if i < n {
      EveryPostWasPermitted(tr[..n], d, keyAuthorization, i);
      assert tr[..n][..i] == tr[..i];
    }
  }

  /** Nothing happened but newNonce requests and at most `posts` POSTs. */
  predicate OnlyTraffic(before: Trace, after: Trace, posts: nat) {
    && before <= after
    && Published(after) == Published(before)
    && Touched(after) == Touched(before)
    && Posts(after) <= Posts(before) + posts
  }

  lemma OnlyTrafficTogether(a: Trace, b: Trace, c: Trace, m: nat, n: nat)
    requires OnlyTraffic(a, b, m) && OnlyTraffic(b, c, n)
    ensures OnlyTraffic(a, c, m + n)
  {
  }

  lemma Snoc(tr: Trace, e: Event)
    ensures (tr + [e])[..|tr|] == tr
    ensures tr <= tr + [e]
  {
  }

  lemma Grown(tr: Trace, longer: Trace)
    requires tr <= longer
    ensures forall e :: e in tr ==> e in longer
  {
    forall e | e in tr ensures e in longer {
      var i :| 0 <= i < |tr| && tr[i] == e;
      assert longer[i] == e;
    }
  }

  lemma StillValid(tr: Trace, longer: Trace, authorization: string)
    requires tr <= longer && SeenValid(tr, authorization)
    ensures SeenValid(longer, authorization)
  {
    Grown(tr, longer);
  }

  lemma ListedLater(tr: Trace, longer: Trace, authorization: string)
    requires tr <= longer && Listed(tr, authorization)
    ensures Listed(longer, authorization)
  {
    Grown(tr, longer);
  }

  lemma OrderedAtLater(tr: Trace, longer: Trace, url: string)
    requires tr <= longer && OrderedAt(tr, url)
    ensures OrderedAt(longer, url)
  {
    Grown(tr, longer);
  }

  lemma OfferedLater(tr: Trace, longer: Trace, url: string, token: string)
    requires tr <= longer && Offered(tr, url, token)
    ensures Offered(longer, url, token)
  {
    Grown(tr, longer);
  }

  lemma OrderLater(tr: Trace, longer: Trace, order: AcmeOrder, url: string)
    requires tr <= longer && Ordered(tr, order) && OrderedAt(tr, url)
    ensures Ordered(longer, order) && OrderedAt(longer, url)
  {
    Grown(tr, longer);
  }

  lemma DownloadedLast(tr: Trace, text: string)
    requires tr != [] && tr[|tr| - 1].Post? && tr[|tr| - 1].request.Download?
    requires tr[|tr| - 1].reply.Answer? && tr[|tr| - 1].reply.text == Some(text)
    ensures Downloaded(tr, text)
  {
    assert tr[|tr| - 1] in tr;
  }

  lemma IssuedLater(tr: Trace, longer: Trace, certificate: string)
    requires tr <= longer && Issued(tr, certificate)
    ensures Issued(longer, certificate)
  {
    Grown(tr, longer);
    var e :| e in tr && SaysIssued(e, certificate) && OrderedAt(tr, e.url);
    assert e in longer && OrderedAt(longer, e.url);
  }

  lemma PermittedAfterHead(tr: Trace, h: Option<Nonce>, d: Directory, keyAuthorization: string -> string,
                           kid: Option<string>, url: string, request: Request)
    requires Permitted(tr, d, keyAuthorization, kid, url, request)
    ensures Permitted(tr + [Head(h)], d, keyAuthorization, kid, url, request)
  {
    Snoc(tr, Head(h));
    Grown(tr, tr + [Head(h)]);
    if request.Download? { IssuedLater(tr, tr + [Head(h)], url); }
  }

  // ---------------------------------------------------------------- the challenge store and the POSTs after a trace

  /** The store after a trace that started from `base`. */
  function StoreAfter(base: map<string, string>, tr: Trace): map<string, string> {
    (base - Touched(tr)) + Published(tr)
  }

  lemma TrafficKeepsStore(base: map<string, string>, before: Trace, after: Trace, posts: nat)
    requires OnlyTraffic(before, after, posts)
    ensures StoreAfter(base, after) == StoreAfter(base, before)
  {
  }

  lemma PublishOne(base: map<string, string>, tr: Trace, token: string, keyAuthorization: string)
    ensures var after := tr + [Publish(token, keyAuthorization)];
      && Published(after) == Published(tr)[token := keyAuthorization]
      && StoreAfter(base, after) == StoreAfter(base, tr)[token := keyAuthorization]
      && Posts(after) == Posts(tr)
  {
    Snoc(tr, Publish(token, keyAuthorization));
  }

  lemma UnpublishOne(base: map<string, string>, tr: Trace, token: string)
    ensures var after := tr + [Unpublish(token)];
      && Published(after) == Published(tr) - {token}
      && StoreAfter(base, after) == StoreAfter(base, tr) - {token}
      && Posts(after) == Posts(tr)
  {
    Snoc(tr, Unpublish(token));
  }

  predicate AtMostOne(tokens: map<string, string>) {
    forall a, b :: a in tokens && b in tokens ==> a == b
  }

  /** The number of POSTs that an order with `n` authorizations may take. */
  function MostPosts(n: nat): nat {
    22 * n + 24
  }

  /** At most two POSTs before an order was made, and 22n + 24 for one with `n` authorizations. */
  ghost predicate WithinBudget(tr: Trace) {
    Posts(tr) <= 2 || exists order :: Ordered(tr, order) && Posts(tr) <= MostPosts(|order.authorizations|)
  }
}
