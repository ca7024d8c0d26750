/**
 * `Transport.post_soap` and everything it sends (src/spconnect/transport.py:991-1338,
 * 1433-1462, 1633-1655): the retry loop, the priming ladder, the version probe, and the flag that
 * says a credential has been accepted. The server is any function from the number of an exchange to its answer.
 */
module Transport {
  /** One exchange: the connection broke, or an answer came; `carried` says whether the
      request that got it went out with an Authorization header, `versioned` whether the answer names
      the server's version. */
  datatype Exchange = Dropped | Reply(status: int, carried: bool, soapFault: bool, versioned: bool)

  /** Why an exchange was sent. `Version` is the one a version probe takes its answer from. */
  datatype Kind = Call | Prime | Check | Version

  datatype Sent = Sent(kind: Kind, exchange: Exchange)

  datatype Mode = Integrated | Ntlm | Basic | Anonymous

  /** How one request, retries included, ends. */
  datatype Answered = Delivered(status: int) | AuthError | NotFound | Unreachable

  datatype Outcome = Content | Redirected(to: int) | Refused | Missing | GaveUp

  datatype Primed = Yes | Denied | Unclear

  predicate IsRefusal(e: Exchange) {
    e.Reply? && (e.status == 401 || e.status == 403)
  }

  /** It carried a credential and was served: evidence that the account works. */
  predicate IsAcceptance(e: Exchange) {
    e.Reply? && e.carried && !IsRefusal(e)
  }

  predicate IsRetryable(e: Exchange) {
    e.Dropped? || (e.status in {500, 502, 503, 504} && !(e.status == 500 && e.soapFault))
  }

  /** Somebody asked for the flag after this exchange, and it was an acceptance. */
  ghost predicate Evidence(log: seq<Sent>, i: nat) {
    i < |log| && log[i].kind != Call && IsAcceptance(log[i].exchange)
  }

  ghost predicate HasEvidence(log: seq<Sent>) {
    exists i: nat :: Evidence(log, i)
  }

  lemma EvidenceGrows(log: seq<Sent>, s: Sent)
    ensures HasEvidence(log + [s]) <==> HasEvidence(log) || (s.kind != Call && IsAcceptance(s.exchange))
  {
    var longer := log + [s];
    if HasEvidence(log) {
      var i: nat :| Evidence(log, i);
      assert Evidence(longer, i);
    }
    if s.kind != Call && IsAcceptance(s.exchange) {
      assert Evidence(longer, |log|);
    }
    if HasEvidence(longer) {
      var i: nat :| Evidence(longer, i);
      assert i < |log| ==> Evidence(log, i);
    }
  }

  // ---- what is sent, exchange by exchange ----

  /** What one exchange of a call means; `Unreachable` is tried again while attempts remain. */
  function Verdict(e: Exchange): Answered {
    if IsRefusal(e) then AuthError
    else if e.Reply? && e.status == 404 then NotFound
    else if IsRetryable(e) then Unreachable
    else Delivered(e.status)
  }

  /** A call that starts at exchange `at` and may be tried `attempts` times takes `n` exchanges:
      all but the last one had to be tried again, and the last one ends it. */
  ghost predicate CallTakes(serve: nat -> Exchange, at: nat, attempts: nat, n: nat) {
    && 0 < n <= attempts
    && (forall i :: at <= i < at + n - 1 ==> Verdict(serve(i)).Unreachable?)
    && (Verdict(serve(at + n - 1)).Unreachable? ==> n == attempts)
  }

  /** One priming attempt, given whether a credential has been accepted before. */
  function Attempt(e: Exchange, accepted: bool): Primed {
    if e.Dropped? then Unclear
    else if IsRefusal(e) then Denied
    else if e.carried || accepted then Yes
    else Unclear
  }

  /** The URLs that demand a credential, one after the other: the first clear answer ends it. */
  ghost predicate UrlsTake(serve: nat -> Exchange, at: nat, accepted: bool, urls: nat, primed: bool, n: nat)
    requires urls > 0
  {
    && 0 < n <= urls
    && (forall i :: at <= i < at + n - 1 ==> Attempt(serve(i), accepted).Unclear?)
    && (Attempt(serve(at + n - 1), accepted).Unclear? ==> n == urls)
    && (primed <==> Attempt(serve(at + n - 1), accepted).Yes?)
  }

  /** The priming ladder: two attempts at the endpoint, then, if neither was refused, the URLs. */
  ghost predicate LadderTakes(serve: nat -> Exchange, at: nat, accepted: bool, urls: nat, primed: bool, n: nat)
    requires urls > 0
  {
    var first, second := Attempt(serve(at), accepted), Attempt(serve(at + 1), accepted);
    if first.Yes? then primed && n == 1
    else if second.Yes? then primed && n == 2
    else if first.Denied? || second.Denied? then !primed && n == 2
    else n >= 2 && UrlsTake(serve, at + 2, accepted, urls, primed, n - 2)
  }

  function OutcomeOf(a: Answered): Outcome {
    match a
    case Delivered(status) => if status in {301, 302, 303, 307, 308} then Redirected(status) else Content
    case NotFound => Missing
    case Unreachable => GaveUp
    case AuthError => Refused
  }

  /** How many exchanges the three parts of one `post_soap` take: the call, the ladder behind a
      refusal that may be primed, and one more call behind a ladder that succeeded. */
  datatype Parts = Parts(call: nat, ladder: nat, again: nat)

  ghost predicate PostTakes(serve: nat -> Exchange, at: nat, accepted: bool, attempts: nat, urls: nat, priming: bool,
                            p: Parts)
    requires urls > 0
  {
    && CallTakes(serve, at, attempts, p.call)
    && (p.ladder > 0 <==> priming && Verdict(serve(at + p.call - 1)).AuthError?)
    && (p.ladder > 0 ==> LadderTakes(serve, at + p.call, accepted, urls, p.again > 0, p.ladder))
    && (p.again > 0 ==> p.ladder > 0 && CallTakes(serve, at + p.call + p.ladder, attempts, p.again))
  }

  /** The last exchange of the last call decides. */
  function LastOf(at: nat, p: Parts): int {
    if p.again > 0 then at + p.call + p.ladder + p.again - 1 else at + p.call - 1
  }

  /** How many exchanges the requests of one version probe take: the HEAD, the GET behind one that
      says too little, and the GET of the web service behind a page that is missing. */
  datatype Tries = Tries(head: nat, get: nat, service: nat)

  function Total(t: Tries): nat {
    t.head + t.get + t.service
  }

  predicate SaysVersion(e: Exchange) {
    e.Reply? && e.status < 400 && e.versioned
  }

  ghost predicate PageTakes(serve: nat -> Exchange, at: nat, attempts: nat, head: nat, get: nat) {
    && CallTakes(serve, at, attempts, head)
    && (get > 0 <==> Verdict(serve(at + head - 1)).Delivered? && !SaysVersion(serve(at + head - 1)))
    && (get > 0 ==> CallTakes(serve, at + head, attempts, get))
  }

  ghost predicate ProbeTakes(serve: nat -> Exchange, at: nat, attempts: nat, t: Tries) {
    && PageTakes(serve, at, attempts, t.head, t.get)
    && (t.service > 0 <==> Verdict(serve(at + t.head + t.get - 1)).NotFound?)
    && (t.service > 0 ==> CallTakes(serve, at + t.head + t.get, attempts, t.service))
  }

  datatype Probed = Probed(known: bool, authenticated: bool) | Failed(why: Answered)

  /** What a version probe makes of its last exchange. */
  function ProbedAs(e: Exchange): Probed {
    if Verdict(e).Delivered? then Probed(e.versioned, IsAcceptance(e)) else Failed(Verdict(e))
  }

  // ---- the same, by the answers' statuses ----

  /** Worth another try: the connection broke, the server is busy, or it failed without saying why. */
  predicate Fails(e: Exchange) {
    e.Dropped? || e.status == 502 || e.status == 503 || e.status == 504 || (e.status == 500 && !e.soapFault)
  }

  predicate Refuses(e: Exchange) {
    e.Reply? && (e.status == 401 || e.status == 403)
  }

  predicate Moves(status: int) {
    status == 301 || status == 302 || status == 303 || status == 307 || status == 308
  }

  /** What the caller of a call is told, by its last exchange. */
  predicate Tells(r: Outcome, e: Exchange) {
    match r
    case GaveUp => Fails(e)
    case Refused => Refuses(e)
    case Missing => e.Reply? && e.status == 404
    case Redirected(to) => e.Reply? && e.status == to && Moves(to)
    case Content => e.Reply? && !Fails(e) && !Refuses(e) && e.status != 404 && !Moves(e.status)
  }

  /** Every exchange but the last failed; and the last too, if all attempts are used up. */
  ghost predicate TriesAgain(serve: nat -> Exchange, at: nat, attempts: nat, n: nat) {
    && 0 < n <= attempts
    && (forall i :: at <= i < at + n - 1 ==> Fails(serve(i)))
    && (Fails(serve(at + n - 1)) ==> n == attempts)
  }

  lemma FailsExactly(e: Exchange)
    ensures Verdict(e).Unreachable? <==> Fails(e)
    ensures Verdict(e).AuthError? <==> Refuses(e)
    ensures Tells(OutcomeOf(Verdict(e)), e)
  {
  }

  /** A call goes on exactly behind exchanges that failed, up to the number of attempts, and what it is
      taken for is its last exchange's status. */
  lemma CallExactly(serve: nat -> Exchange, at: nat, attempts: nat, n: nat)
    ensures CallTakes(serve, at, attempts, n) <==> TriesAgain(serve, at, attempts, n)
    ensures n > 0 ==> Tells(OutcomeOf(Verdict(serve(at + n - 1))), serve(at + n - 1))
  {
    forall i: nat ensures Verdict(serve(i)).Unreachable? <==> Fails(serve(i)) {
      FailsExactly(serve(i));
    }
    if n > 0 {
      FailsExactly(serve(at + n - 1));
    }
  }

  /** A priming exchange that settles it: served with a credential, now or before. */
  predicate Serves(e: Exchange, accepted: bool) {
    e.Reply? && !Refuses(e) && (e.carried || accepted)
  }

  /** The ladder: the endpoint, once more if that was not served; neither served nor refused, the URLs
      until one is either. */
  ghost predicate Climbs(serve: nat -> Exchange, at: nat, accepted: bool, urls: nat, primed: bool, n: nat) {
    var first, second := serve(at), serve(at + 1);
    if Serves(first, accepted) then primed && n == 1
    else if Serves(second, accepted) then primed && n == 2
    else if Refuses(first) || Refuses(second) then !primed && n == 2
    else
      && 2 < n <= 2 + urls
      && (forall i :: at + 2 <= i < at + n - 1 ==> !Serves(serve(i), accepted) && !Refuses(serve(i)))
      && (primed <==> Serves(serve(at + n - 1), accepted))
      && (n == 2 + urls || primed || Refuses(serve(at + n - 1)))
  }

  lemma AttemptExactly(e: Exchange, accepted: bool)
    ensures Attempt(e, accepted).Yes? <==> Serves(e, accepted)
    ensures Attempt(e, accepted).Denied? <==> Refuses(e)
  {
  }

  lemma LadderExactly(serve: nat -> Exchange, at: nat, accepted: bool, urls: nat, primed: bool, n: nat)
    requires urls > 0
    ensures LadderTakes(serve, at, accepted, urls, primed, n) <==> Climbs(serve, at, accepted, urls, primed, n)
  {
    forall i: nat
      ensures Attempt(serve(i), accepted).Yes? <==> Serves(serve(i), accepted)
      ensures Attempt(serve(i), accepted).Denied? <==> Refuses(serve(i))
    {
      AttemptExactly(serve(i), accepted);
    }
  }

  /** A page of the farm that does not say the version: an error page, or one without the header. */
  predicate SaysTooLittle(e: Exchange) {
    e.Reply? && !Fails(e) && !Refuses(e) && e.status != 404 && (e.status >= 400 || !e.versioned)
  }

  /** The version probe: a GET behind a HEAD that says too little, the web service behind a page that is
      missing. */
  lemma ProbeExactly(serve: nat -> Exchange, at: nat, attempts: nat, t: Tries)
    requires ProbeTakes(serve, at, attempts, t)
    ensures TriesAgain(serve, at, attempts, t.head)
    ensures t.get > 0 <==> SaysTooLittle(serve(at + t.head - 1))
    ensures t.get > 0 ==> TriesAgain(serve, at + t.head, attempts, t.get)
    ensures var page := serve(at + t.head + t.get - 1); t.service > 0 <==> page.Reply? && page.status == 404
    ensures t.service > 0 ==> TriesAgain(serve, at + t.head + t.get, attempts, t.service)
    ensures var last := serve(at + Total(t) - 1);
      match ProbedAs(last)
      case Probed(known, authenticated) =>
        && last.Reply? && !Fails(last) && !Refuses(last) && last.status != 404
        && (known <==> last.versioned) && (authenticated <==> last.carried)
      case Failed(_) => Fails(last) || Refuses(last) || last.status == 404
  {
    CallExactly(serve, at, attempts, t.head);
    CallExactly(serve, at + t.head, attempts, t.get);
    CallExactly(serve, at + t.head + t.get, attempts, t.service);
    FailsExactly(serve(at + Total(t) - 1));
  }

  // ---- bounds ----

  function RefusedIn(serve: nat -> Exchange, at: nat, n: nat): nat
    decreases n
  {
    if n == 0 then 0 else (if IsRefusal(serve(at)) then 1 else 0) + RefusedIn(serve, at + 1, n - 1)
  }

  lemma {:induction false} RefusedSplit(serve: nat -> Exchange, at: nat, m: nat, n: nat)
    ensures RefusedIn(serve, at, m + n) == RefusedIn(serve, at, m) + RefusedIn(serve, at + m, n)
    decreases m
  {
    if m > 0 {
      RefusedSplit(serve, at + 1, m - 1, n);
    }
  }

  lemma {:induction false} NoneRefused(serve: nat -> Exchange, at: nat, n: nat)
    requires forall i :: at <= i < at + n ==> !IsRefusal(serve(i))
    ensures RefusedIn(serve, at, n) == 0
    decreases n
  {
    if n > 0 {
      NoneRefused(serve, at + 1, n - 1);
    }
  }

  /** Only the last of a stretch may be refused. */
  lemma {:induction false} LastRefused(serve: nat -> Exchange, at: nat, n: nat)
    requires n > 0 && forall i :: at <= i < at + n - 1 ==> !IsRefusal(serve(i))
    ensures RefusedIn(serve, at, n) == if IsRefusal(serve(at + n - 1)) then 1 else 0
  {
    NoneRefused(serve, at, n - 1);
    RefusedSplit(serve, at, n - 1, 1);
    assert RefusedIn(serve, at + n - 1, 1) == if IsRefusal(serve(at + n - 1)) then 1 else 0;
  }

  /** A call is refused at most once, and that ends it. */
  lemma {:induction false} CallBounded(serve: nat -> Exchange, at: nat, attempts: nat, n: nat)
    requires CallTakes(serve, at, attempts, n)
    ensures RefusedIn(serve, at, n) == if Verdict(serve(at + n - 1)).AuthError? then 1 else 0
  {
    LastRefused(serve, at, n);
  }

  /** At most two refusals, one if it succeeds; and success has a credential accepted, before it
      or in its last exchange. */
  lemma {:induction false} LadderBounded(serve: nat -> Exchange, at: nat, accepted: bool, urls: nat,
                                         primed: bool, n: nat)
    requires urls > 0 && LadderTakes(serve, at, accepted, urls, primed, n)
    ensures 0 < n <= 2 + urls && RefusedIn(serve, at, n) <= if primed then 1 else 2
    ensures primed && !accepted ==> IsAcceptance(serve(at + n - 1))
  {
    assert RefusedIn(serve, at + 1, 1) == if IsRefusal(serve(at + 1)) then 1 else 0;
    if n > 2 {
      LastRefused(serve, at + 2, n - 2);
      RefusedSplit(serve, at, 2, n - 2);
    }
  }

  /** For every server: at most two calls' worth of requests beside the ladder, at most three
      refusals, and a second call only when a credential has been accepted, before or in the
      exchange right before it. */
  lemma {:induction false} PostBounded(serve: nat -> Exchange, at: nat, accepted: bool, attempts: nat,
                                       urls: nat, priming: bool, p: Parts)
    requires urls > 0 && PostTakes(serve, at, accepted, attempts, urls, priming, p)
    ensures p.call + p.ladder + p.again <= if priming then 2 * attempts + 2 + urls else attempts
    ensures RefusedIn(serve, at, p.call + p.ladder + p.again) <= if priming then 3 else 1
    ensures p.again > 0 && !accepted ==> IsAcceptance(serve(at + p.call + p.ladder - 1))
  {
    CallBounded(serve, at, attempts, p.call);
    RefusedSplit(serve, at, p.call, p.ladder);
    RefusedSplit(serve, at, p.call + p.ladder, p.again);
    if p.ladder > 0 {
      LadderBounded(serve, at + p.call, accepted, urls, p.again > 0, p.ladder);
    }
    if p.again > 0 {
      CallBounded(serve, at + p.call + p.ladder, attempts, p.again);
    }
  }

  /** A stretch that only its last exchange can be refused in. */
  ghost predicate RefusedLast(serve: nat -> Exchange, at: nat, n: nat) {
    n > 0 && RefusedIn(serve, at, n) == if IsRefusal(serve(at + n - 1)) then 1 else 0
  }

  lemma CallBehind(serve: nat -> Exchange, at: nat, attempts: nat, n: nat, m: nat)
    requires RefusedLast(serve, at, n)
    requires m > 0 ==> !IsRefusal(serve(at + n - 1)) && CallTakes(serve, at + n, attempts, m)
    ensures RefusedLast(serve, at, n + m) && m <= attempts
  {
    RefusedSplit(serve, at, n, m);
    if m > 0 {
      CallBounded(serve, at + n, attempts, m);
    }
  }

  lemma PageBounded(serve: nat -> Exchange, at: nat, attempts: nat, head: nat, get: nat)
    requires PageTakes(serve, at, attempts, head, get)
    ensures RefusedLast(serve, at, head + get) && head + get <= 2 * attempts
  {
    CallBounded(serve, at, attempts, head);
    CallBehind(serve, at, attempts, head, get);
  }

  /** A version probe is three calls at most, and refused at most once, at its end. */
  lemma ProbeBounded(serve: nat -> Exchange, at: nat, attempts: nat, t: Tries)
    requires ProbeTakes(serve, at, attempts, t)
    ensures RefusedLast(serve, at, Total(t)) && Total(t) <= 3 * attempts
  {
    PageBounded(serve, at, attempts, t.head, t.get);
    ServiceBehind(serve, at, attempts, t.head + t.get, t.service);
  }

  lemma ServiceBehind(serve: nat -> Exchange, at: nat, attempts: nat, n: nat, m: nat)
    requires RefusedLast(serve, at, n)
    requires m > 0 ==> Verdict(serve(at + n - 1)).NotFound? && CallTakes(serve, at + n, attempts, m)
    ensures RefusedLast(serve, at, n + m) && m <= attempts
  {
    CallBehind(serve, at, attempts, n, m);
  }

  /** One `post_soap` by the answers' statuses: when its calls go on, when the ladder is tried and how far
      it goes, what the end is taken for. */
  ghost predicate Says(serve: nat -> Exchange, at: nat, accepted: bool, attempts: nat, urls: nat, priming: bool,
                       p: Parts, r: Outcome) {
    && SaysFirst(serve, at, attempts, priming, p.call, p.ladder, p.again, r)
    && (p.ladder > 0 ==> Climbs(serve, at + p.call, accepted, urls, p.again > 0, p.ladder))
    && SaysAgain(serve, at + p.call + p.ladder, attempts, p.again, r)
  }

  ghost predicate SaysFirst(serve: nat -> Exchange, at: nat, attempts: nat, priming: bool, call: nat, ladder: nat,
                            again: nat, r: Outcome) {
    && TriesAgain(serve, at, attempts, call)
    && (ladder > 0 <==> priming && Refuses(serve(at + call - 1)))
    && (again > 0 ==> ladder > 0)
    && (again == 0 ==> Tells(r, serve(at + call - 1)))
  }

  ghost predicate SaysAgain(serve: nat -> Exchange, at: nat, attempts: nat, again: nat, r: Outcome) {
    again > 0 ==> TriesAgain(serve, at, attempts, again) && Tells(r, serve(at + again - 1))
  }

  lemma FirstExactly(serve: nat -> Exchange, at: nat, attempts: nat, priming: bool, call: nat, ladder: nat,
                     again: nat, r: Outcome)
    requires CallTakes(serve, at, attempts, call) && (again > 0 ==> ladder > 0)
    requires ladder > 0 <==> priming && Verdict(serve(at + call - 1)).AuthError?
    requires again == 0 ==> r == OutcomeOf(Verdict(serve(at + call - 1)))
    ensures SaysFirst(serve, at, attempts, priming, call, ladder, again, r)
  {
    CallExactly(serve, at, attempts, call);
    FailsExactly(serve(at + call - 1));
  }

  lemma AgainExactly(serve: nat -> Exchange, at: nat, attempts: nat, again: nat, r: Outcome)
    requires again > 0 ==> CallTakes(serve, at, attempts, again) && r == OutcomeOf(Verdict(serve(at + again - 1)))
    ensures SaysAgain(serve, at, attempts, again, r)
  {
    if again > 0 {
      CallExactly(serve, at, attempts, again);
    }
  }

  lemma PostExactly(serve: nat -> Exchange, at: nat, accepted: bool, attempts: nat, urls: nat, priming: bool, p: Parts)
    requires urls > 0 && PostTakes(serve, at, accepted, attempts, urls, priming, p)
    ensures Says(serve, at, accepted, attempts, urls, priming, p, OutcomeOf(Verdict(serve(LastOf(at, p)))))
  {
    var r := OutcomeOf(Verdict(serve(LastOf(at, p))));
    FirstExactly(serve, at, attempts, priming, p.call, p.ladder, p.again, r);
    AgainExactly(serve, at + p.call + p.ladder, attempts, p.again, r);
    LadderExactly(serve, at + p.call, accepted, urls, p.again > 0, p.ladder);
  }

  /** What is sent is determined: the answers leave one way to go. */
  lemma CallIsDetermined(serve: nat -> Exchange, at: nat, attempts: nat, m: nat, n: nat)
    requires CallTakes(serve, at, attempts, m) && CallTakes(serve, at, attempts, n)
    ensures m == n
  {
  }

  // ---- the log ----

  /** The log of a stretch of exchanges of one kind. */
  function Served(serve: nat -> Exchange, at: nat, n: nat, kind: Kind): seq<Sent> {
    seq(n, i requires 0 <= i < n => Sent(kind, serve(at + i)))
  }

  lemma ServedOneMore(serve: nat -> Exchange, at: nat, n: nat, kind: Kind)
    ensures Served(serve, at, n + 1, kind) == Served(serve, at, n, kind) + [Sent(kind, serve(at + n))]
  {
  }

  lemma ServedTogether(log: seq<Sent>, serve: nat -> Exchange, at: nat, m: nat, n: nat, kind: Kind)
    ensures log + Served(serve, at, m, kind) + Served(serve, at + m, n, kind) == log + Served(serve, at, m + n, kind)
  {
  }

  class Client {
    const serve: nat -> Exchange
    const maxRetries: int
    const primeConnection: bool
    const mode: Mode
    const primeUrlConfigured: bool
    var requestCount: nat
    var sideChannelRequests: nat
    var credentialAccepted: bool
    ghost var log: seq<Sent>

    constructor (serve: nat -> Exchange, maxRetries: int, primeConnection: bool, mode: Mode, primeUrlConfigured: bool)
      ensures Valid() && log == [] && !credentialAccepted
      ensures this.serve == serve && this.maxRetries == maxRetries && this.primeConnection == primeConnection
      ensures this.mode == mode && this.primeUrlConfigured == primeUrlConfigured
    {
      this.serve, this.maxRetries, this.primeConnection, this.mode := serve, maxRetries, primeConnection, mode;
      this.primeUrlConfigured := primeUrlConfigured;
      requestCount, sideChannelRequests, credentialAccepted, log := 0, 0, false, [];
    }

    /** The counters account for every exchange, and the flag is up exactly when some earlier
        exchange it was asked about carried a credential and was not refused. */
    ghost predicate Valid()
      reads this
    {
      && |log| == requestCount + sideChannelRequests
      && (credentialAccepted <==> HasEvidence(log))
    }

    function Attempts(): (n: nat)
      ensures n > 0
    {
      if maxRetries < 1 then 1 else maxRetries
    }

    function PrimeUrls(): (n: nat)
      ensures n > 0
    {
      if primeUrlConfigured then 1 else 2
    }

    /** `_authenticated`, asked after the refusal check. */
    method Authenticated(e: Exchange) returns (yes: bool)
      requires !IsRefusal(e)
      modifies this`credentialAccepted
      ensures yes <==> IsAcceptance(e)
      ensures credentialAccepted == (old(credentialAccepted) || yes)
    {
      yes := e.Reply? && e.carried;
      if yes {
        credentialAccepted := true;
      }
    }

    /** `_send`: one exchange of the counted kind. It never touches the flag. */
    method Send() returns (e: Exchange)
      requires Valid()
      modifies this`requestCount, this`log
      ensures Valid() && log == old(log) + [Sent(Call, e)] && e == serve(|old(log)|)
      ensures requestCount == old(requestCount) + 1
    {
      e := serve(requestCount + sideChannelRequests);
      requestCount := requestCount + 1;
      EvidenceGrows(log, Sent(Call, e));
      log := log + [Sent(Call, e)];
    }

    /** `request`: only a broken connection or a retryable status is tried again. */
    method Request() returns (r: Answered, ghost n: nat)
      requires Valid()
      modifies this`requestCount, this`log
      ensures Valid() && log == old(log) + Served(serve, |old(log)|, n, Call)
      ensures CallTakes(serve, |old(log)|, Attempts(), n) && r == Verdict(serve(|old(log)| + n - 1))
      // By the statuses: which exchanges were tried again, how often, and what the last one is taken for.
      ensures TriesAgain(serve, |old(log)|, if maxRetries < 1 then 1 else maxRetries, n)
      ensures var last := serve(|old(log)| + n - 1);
        Tells(OutcomeOf(r), last) && (r.Delivered? ==> last.Reply? && r.status == last.status)
    {
      r, n := Attempted();
      CallExactly(serve, |old(log)|, Attempts(), n);
    }

    /** The retry loop. */
    method Attempted() returns (r: Answered, ghost n: nat)
      requires Valid()
      modifies this`requestCount, this`log
      ensures Valid() && log == old(log) + Served(serve, |old(log)|, n, Call)
      ensures CallTakes(serve, |old(log)|, Attempts(), n) && r == Verdict(serve(|old(log)| + n - 1))
    {
      ghost var at := |log|;
      var attempt := 0;
      n := 0;
      while attempt < Attempts()
        invariant Valid() && n == attempt <= Attempts()
        invariant log == old(log) + Served(serve, at, n, Call)
        invariant forall i :: at <= i < at + n ==> Verdict(serve(i)).Unreachable?
      {
        ServedOneMore(serve, at, n, Call);
        var e := Send();
        attempt, n := attempt + 1, n + 1;
        if IsRefusal(e) {
          return AuthError, n;
        }
        if e.Reply? && e.status == 404 {
          return NotFound, n;
        }
        if !IsRetryable(e) {
          return Delivered(e.status), n;
        }
      }
      return Unreachable, n;
    }

    /** `_prime_attempt`: refusal first, then evidence from this exchange, then the flag. */
    method PrimeAttempt() returns (r: Primed)
      requires Valid()
      modifies this`sideChannelRequests, this`log, this`credentialAccepted
      ensures Valid() && log == old(log) + [Sent(Prime, serve(|old(log)|))]
      ensures sideChannelRequests == old(sideChannelRequests) + 1
      ensures r == Attempt(serve(|old(log)|), old(credentialAccepted))
      ensures credentialAccepted == (old(credentialAccepted) || r.Yes?)
    {
      var e := serve(requestCount + sideChannelRequests);
      sideChannelRequests := sideChannelRequests + 1;
      EvidenceGrows(log, Sent(Prime, e));
      log := log + [Sent(Prime, e)];
      if e.Dropped? {
        return Unclear;
      }
      if e.status == 401 || e.status == 403 {
        return Denied;
      }
      var yes := Authenticated(e);
      return if yes || credentialAccepted then Yes else Unclear;
    }

    /** The first two rungs: an empty POST and a bodyless GET. */
    method AskEndpoint() returns (primed: bool, refused: bool, ghost n: nat)
      requires Valid()
      modifies this`sideChannelRequests, this`log, this`credentialAccepted
      ensures Valid() && log == old(log) + Served(serve, |old(log)|, n, Prime)
      ensures credentialAccepted == (old(credentialAccepted) || primed)
      ensures var first, second := Attempt(serve(|old(log)|), old(credentialAccepted)),
                                   Attempt(serve(|old(log)| + 1), old(credentialAccepted));
        && (primed <==> first.Yes? || second.Yes?) && n == (if first.Yes? then 1 else 2)
        && (!primed ==> (refused <==> first.Denied? || second.Denied?))
    {
      primed, refused, n := false, false, 0;
      ghost var at := |log|;
      for i := 0 to 2
        invariant Valid() && n == i && !primed && credentialAccepted == old(credentialAccepted)
        invariant log == old(log) + Served(serve, at, i, Prime)
        invariant forall k :: at <= k < at + i ==> !Attempt(serve(k), credentialAccepted).Yes?
        invariant refused <==> exists k :: at <= k < at + i && Attempt(serve(k), credentialAccepted).Denied?
      {
        ServedOneMore(serve, at, i, Prime);
        var r := PrimeAttempt();
        n := n + 1;
        if r.Yes? {
          primed := true;
          return;
        }
        if r.Denied? {
          refused := true;
        }
      }
    }

    /** The URLs that normally demand a credential. */
    method AskUrls() returns (primed: bool, ghost n: nat)
      requires Valid()
      modifies this`sideChannelRequests, this`log, this`credentialAccepted
      ensures Valid() && log == old(log) + Served(serve, |old(log)|, n, Prime)
      ensures credentialAccepted == (old(credentialAccepted) || primed)
      ensures UrlsTake(serve, |old(log)|, old(credentialAccepted), PrimeUrls(), primed, n)
    {
      primed, n := false, 0;
      ghost var at := |log|;
      for i := 0 to PrimeUrls()
        invariant Valid() && n == i && !primed && credentialAccepted == old(credentialAccepted)
        invariant log == old(log) + Served(serve, at, i, Prime)
        invariant forall k :: at <= k < at + i ==> Attempt(serve(k), credentialAccepted).Unclear?
      {
        ServedOneMore(serve, at, i, Prime);
        var r := PrimeAttempt();
        n := n + 1;
        if r.Yes? {
          primed := true;
          return;
        }
        if r.Denied? {
          return;
        }
      }
    }

    /** `_prime_connection`: the endpoint twice, and only if neither was refused the URLs. */
    method PrimeConnection() returns (primed: bool, ghost n: nat)
      requires Valid()
      modifies this`sideChannelRequests, this`log, this`credentialAccepted
      ensures Valid() && log == old(log) + Served(serve, |old(log)|, n, Prime)
      ensures credentialAccepted == (old(credentialAccepted) || primed)
      ensures LadderTakes(serve, |old(log)|, old(credentialAccepted), PrimeUrls(), primed, n)
    {
      var refused;
      primed, refused, n := AskEndpoint();
      if !primed && !refused {
        ghost var m;
        primed, m := AskUrls();
        ServedTogether(old(log), serve, |old(log)|, n, m, Prime);
        n := n + m;
      }
    }

    /** Priming is tried only in the modes it can help. */
    predicate Eligible() {
      primeConnection && (mode.Ntlm? || mode.Integrated?)
    }

    /** `post_soap` with `_primed` set: a refusal is not primed again. */
    method PostOnce() returns (r: Outcome, ghost n: nat)
      requires Valid()
      modifies this`requestCount, this`log
      ensures Valid() && log == old(log) + Served(serve, |old(log)|, n, Call)
      ensures CallTakes(serve, |old(log)|, Attempts(), n) && r == OutcomeOf(Verdict(serve(|old(log)| + n - 1)))
    {
      var answer;
      answer, n := Request();
      r := OutcomeOf(answer);
    }

    /** The way on behind a refused call: prime, and call once more if that succeeds. */
    method PrimeAndCall() returns (r: Outcome, ghost ladder: nat, ghost again: nat)
      requires Valid()
      modifies this
      ensures Valid() && ladder > 0
      ensures LadderTakes(serve, |old(log)|, old(credentialAccepted), PrimeUrls(), again > 0, ladder)
      ensures log == old(log) + Served(serve, |old(log)|, ladder, Prime)
                     + Served(serve, |old(log)| + ladder, again, Call)
      ensures if again == 0 then r == Refused
              else CallTakes(serve, |old(log)| + ladder, Attempts(), again)
                   && r == OutcomeOf(Verdict(serve(|old(log)| + ladder + again - 1)))
      ensures again > 0 ==> HasEvidence(old(log) + Served(serve, |old(log)|, ladder, Prime))
      ensures requestCount == old(requestCount) + again && sideChannelRequests == old(sideChannelRequests) + ladder
    {
      r, again := Refused, 0;
      var ready;
      ready, ladder := PrimeConnection();
      LadderBounded(serve, |old(log)|, old(credentialAccepted), PrimeUrls(), ready, ladder);
      if ready {
        r, again := PostOnce();
      } else {
        assert log + [] == log;
      }
    }

    /** `post_soap`, exchange by exchange. */
    method PostInParts() returns (r: Outcome, ghost p: Parts)
      requires Valid()
      modifies this
      ensures Valid()
      ensures PostTakes(serve, |old(log)|, old(credentialAccepted), Attempts(), PrimeUrls(), Eligible(), p)
      ensures r == OutcomeOf(Verdict(serve(LastOf(|old(log)|, p))))
      ensures log == old(log) + Served(serve, |old(log)|, p.call, Call)
                     + Served(serve, |old(log)| + p.call, p.ladder, Prime)
                     + Served(serve, |old(log)| + p.call + p.ladder, p.again, Call)
      ensures p.again > 0 ==>
        HasEvidence(old(log) + Served(serve, |old(log)|, p.call, Call)
                    + Served(serve, |old(log)| + p.call, p.ladder, Prime))
      ensures requestCount == old(requestCount) + p.call + p.again
      ensures sideChannelRequests == old(sideChannelRequests) + p.ladder
    {
      ghost var n, ladder, again := 0, 0, 0;
      r, n := PostOnce();
      if r.Refused? && Eligible() {
        r, ladder, again := PrimeAndCall();
      } else {
        assert log + [] + [] == log;
      }
      p := Parts(n, ladder, again);
    }

    /**
     * `post_soap`, against any server: exactly the exchanges that its answers' statuses call for; and a
     * second call only with evidence that the account works, in an exchange before it.
     */
    method PostSoap() returns (r: Outcome, ghost p: Parts)
      requires Valid()
      modifies this
      ensures Valid()
      ensures PostTakes(serve, |old(log)|, old(credentialAccepted), Attempts(), PrimeUrls(), Eligible(), p)
      ensures Says(serve, |old(log)|, old(credentialAccepted), if maxRetries < 1 then 1 else maxRetries,
                   if primeUrlConfigured then 1 else 2, primeConnection && (mode == Ntlm || mode == Integrated),
                   p, r)
      ensures log == old(log) + Served(serve, |old(log)|, p.call, Call)
                     + Served(serve, |old(log)| + p.call, p.ladder, Prime)
                     + Served(serve, |old(log)| + p.call + p.ladder, p.again, Call)
      ensures p.again > 0 ==>
        HasEvidence(old(log) + Served(serve, |old(log)|, p.call, Call)
                    + Served(serve, |old(log)| + p.call, p.ladder, Prime))
      ensures requestCount == old(requestCount) + p.call + p.again
      ensures sideChannelRequests == old(sideChannelRequests) + p.ladder
    {
      r, p := PostInParts();
      PostExactly(serve, |old(log)|, old(credentialAccepted), Attempts(), PrimeUrls(), Eligible(), p);
    }

    /** `_status_of`: a refused exchange is evidence of nothing. */
    method StatusOf() returns (authenticated: bool)
      requires Valid()
      modifies this`sideChannelRequests, this`log, this`credentialAccepted
      ensures Valid() && log == old(log) + [Sent(Check, serve(|old(log)|))]
      ensures sideChannelRequests == old(sideChannelRequests) + 1
      ensures authenticated <==> IsAcceptance(serve(|old(log)|))
      ensures credentialAccepted == (old(credentialAccepted) || authenticated)
    {
      var e := serve(requestCount + sideChannelRequests);
      sideChannelRequests := sideChannelRequests + 1;
      EvidenceGrows(log, Sent(Check, e));
      log := log + [Sent(Check, e)];
      authenticated := false;
      if e.Reply? && !(e.status == 401 || e.status == 403) {
        authenticated := Authenticated(e);
      }
    }

    method AskPage() returns (r: Answered, ghost head: nat, ghost get: nat)
      requires Valid()
      modifies this`requestCount, this`log
      ensures Valid() && log == old(log) + Served(serve, |old(log)|, head + get, Call)
      ensures PageTakes(serve, |old(log)|, Attempts(), head, get)
      ensures r == Verdict(serve(|old(log)| + head + get - 1))
    {
      get := 0;
      r, head := Request();
      if r.Delivered? && !SaysVersion(serve(requestCount + sideChannelRequests - 1)) {
        r, get := Request();
        ServedTogether(old(log), serve, |old(log)|, head, get, Call);
      }
    }

    /** The requests of a version probe: up to the exchange its answer is taken from. */
    method AskVersion() returns (r: Answered, ghost t: Tries)
      requires Valid()
      modifies this`requestCount, this`log
      ensures Valid() && log == old(log) + Served(serve, |old(log)|, Total(t), Call)
      ensures ProbeTakes(serve, |old(log)|, Attempts(), t) && r == Verdict(serve(|old(log)| + Total(t) - 1))
    {
      ghost var head, get, service := 0, 0, 0;
      r, head, get := AskPage();
      if r.NotFound? {
        r, service := Request();
        ServedTogether(old(log), serve, |old(log)|, head + get, service, Call);
      }
      t := Tries(head, get, service);
    }

    /** `probe_version`: the flag is asked for after a counted exchange, its last. */
    method ProbeVersion() returns (r: Probed, ghost t: Tries)
      requires Valid()
      modifies this`requestCount, this`log, this`credentialAccepted
      ensures Valid() && ProbeTakes(serve, |old(log)|, Attempts(), t)
      ensures var last := serve(|old(log)| + Total(t) - 1);
        && r == ProbedAs(last)
        && log == old(log) + Served(serve, |old(log)|, Total(t) - 1, Call)
                  + [Sent(if r.Probed? then Version else Call, last)]
        && credentialAccepted == (old(credentialAccepted) || (r.Probed? && r.authenticated))
    {
      ghost var at := |log|;
      var answer;
      answer, t := AskVersion();
      var e := serve(requestCount + sideChannelRequests - 1);
      ghost var before := old(log) + Served(serve, at, Total(t) - 1, Call);
      ServedOneMore(serve, at, Total(t) - 1, Call);
      assert log == before + [Sent(Call, e)];
      if !answer.Delivered? {
        return Failed(answer), t;
      }
      EvidenceGrows(before, Sent(Call, e));
      EvidenceGrows(before, Sent(Version, e));
      log := before + [Sent(Version, e)];
      var authenticated := Authenticated(e);
      r := Probed(e.versioned, authenticated);
    }
  }
}
