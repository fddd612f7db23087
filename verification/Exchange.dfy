/** Retries, redirects and connection ownership in the HTTP engine (section 15.4 of RFC 9110). */
module Exchange {
  import opened Bytes
  import opened Wrappers
  import opened Text
  import RequestText

  const POST: bytes := Ascii("POST")
  const GET: bytes := Ascii("GET")
  const CONTENT_TYPE: bytes := Ascii("Content-Type")

  datatype Request = Request(method': bytes, url: bytes, headers: map<bytes, bytes>, body: bytes)

  // ----- nextRedirectRequest

  predicate IsRedirect(status: int) {
    status == 301 || status == 302 || status == 303 || status == 307 || status == 308
  }

  function Upper(s: bytes): bytes {
    seq(|s|, i requires 0 <= i < |s| => if 97 <= s[i] <= 122 then s[i] - 32 else s[i])
  }

  /** No header of this name, whatever its case and the space around it. */
  ghost predicate Lacks(headers: map<bytes, bytes>, key: bytes) {
    forall k :: k in headers ==> !EqualFold(TrimSpace(k), key)
  }

  function RemoveHeader(headers: map<bytes, bytes>, key: bytes): (r: map<bytes, bytes>)
    ensures Lacks(r, key)
    ensures forall k :: k in headers && !EqualFold(TrimSpace(k), key) ==> k in r && r[k] == headers[k]
    ensures r.Keys <= headers.Keys
  {
    map k | k in headers && !EqualFold(TrimSpace(k), key) :: headers[k]
  }

  /** A redirect that turns the request into a GET. */
  predicate Rewrites(method': bytes, status: int) {
    status == 303 || ((status == 301 || status == 302) && Upper(TrimSpace(method')) == POST)
  }

  function NextRequest(req: Request, url: bytes, status: int): Request {
    if Rewrites(req.method', status) then
      var bare := RemoveHeader(RemoveHeader(req.headers, RequestText.CONTENT_LENGTH), CONTENT_TYPE);
      Request(GET, url, RemoveHeader(bare, RequestText.HOST), [])
    else
      Request(req.method', url, RemoveHeader(req.headers, RequestText.HOST), req.body)
  }

  /** A GET without body and without the headers that describe one. */
  ghost predicate PlainGet(req: Request) {
    && req.method' == GET && req.body == []
    && Lacks(req.headers, RequestText.CONTENT_LENGTH) && Lacks(req.headers, CONTENT_TYPE)
  }

  lemma LacksMore(headers: map<bytes, bytes>, key: bytes, other: bytes)
    requires Lacks(headers, key)
    ensures Lacks(RemoveHeader(headers, other), key)
  {
    hide EqualFold, TrimSpace;
  }

  /** A rewriting redirect gives a plain GET, and every redirect keeps one plain. */
  lemma NextRequestPlain(req: Request, url: bytes, status: int)
    requires Rewrites(req.method', status) || PlainGet(req)
    ensures PlainGet(NextRequest(req, url, status))
  {
    hide RemoveHeader, Lacks;
    var once := RemoveHeader(req.headers, RequestText.CONTENT_LENGTH);
    var twice := RemoveHeader(once, CONTENT_TYPE);
    LacksMore(once, RequestText.CONTENT_LENGTH, CONTENT_TYPE);
    LacksMore(twice, RequestText.CONTENT_LENGTH, RequestText.HOST);
    LacksMore(twice, CONTENT_TYPE, RequestText.HOST);
    if PlainGet(req) {
      LacksMore(req.headers, RequestText.CONTENT_LENGTH, RequestText.HOST);
      LacksMore(req.headers, CONTENT_TYPE, RequestText.HOST);
    }
  }

  // ----- the network

  /** `isRetryableHTTPError` sorts the failures of the network; the client's own two errors are not
      retried. */
  datatype Error = Failure(canRetry: bool) | TooManyRedirects | ContextEnded {
    predicate Retryable() {
      Failure? && canRetry
    }
  }

  /** The places where `doStreamOnce` can fail once it has a connection. Writing the request fails
      when the connection reports an error, or when it takes nothing and reports none. */
  datatype Stage =
    | WriteFails
    | WriteTakesNothing
    | ReadStatusLine
    | ParseStatus
    | ReadHeaders
    | ChooseBody
    | Decompress

  /** What comes of one exchange: no connection, a connection on which the exchange breaks before the
      response is there, or a response. `next` is the resolved Location, and `body` what reading it
      gives. */
  datatype Reply =
    | NoConnection(err: Error)
    | Broken(stage: Stage, err: Error)
    | Answer(status: int, location: bytes, next: Result<bytes, Error>, body: Result<bytes, Error>)

  predicate Breaks(reply: Reply, stage: Stage) {
    reply.Broken? && reply.stage == stage
  }

  /** The reply sends the client somewhere else. */
  predicate Redirecting(reply: Reply) {
    reply.Answer? && IsRedirect(reply.status) && reply.location != []
  }

  /** An exchange that took place: the request, the number of redirects before it, the reply. */
  datatype Entry = Entry(req: Request, hop: nat, reply: Reply)

  /** The connections, numbered from i on, on which writing the request failed. */
  function FailedWrites(log: seq<Entry>, i: nat): (r: set<nat>)
    ensures forall id <- r :: i <= id < i + |log|
    decreases |log|
  {
    if log == [] then {}
    else (if Breaks(log[0].reply, WriteFails) then {i} else {}) + FailedWrites(log[1..], i + 1)
  }

  /** `script(i)` is the reply to exchange number i; `stops(i)` says whether the context ends in the
      pause after i exchanges; `keep` is true for `DoStream`, false for `Do`. */
  datatype World = World(script: nat -> Reply, stops: nat -> bool, keep: bool)

  datatype Final = Response(status: int) | Nothing

  /** What a call comes to: its result, its exchanges, and the connection that stays open. */
  datatype Call = Call(result: Result<Final, Error>, log: seq<Entry>, held: Option<nat>)

  /** `doWithRedirects` / `doStreamWithRedirects` from a hop on; i exchanges have been made before. */
  function Follow(w: World, req: Request, hop: nat, limit: nat, i: nat): (r: Call)
    requires hop <= limit
    ensures 0 < |r.log| <= limit - hop + 1
    ensures r.held.Some? <==> r.result.Ok? && w.keep
    decreases limit - hop
  {
    var reply := w.script(i);
    var here := [Entry(req, hop, reply)];
    match reply
    case NoConnection(err) => Call(Err(err), here, None)
    case Broken(_, err) => Call(Err(err), here, None)
    case Answer(status, _, next, body) =>
      if !w.keep && body.Err? then Call(Err(body.error), here, None)
      else if !Redirecting(reply) then Call(Ok(Response(status)), here, if w.keep then Some(i) else None)
      else if next.Err? then Call(Err(next.error), here, None)
      else if hop == limit then Call(Err(TooManyRedirects), here, None)
      else
        var rest := Follow(w, NextRequest(req, next.value, status), hop + 1, limit, i + 1);
        rest.(log := here + rest.log)
  }

  function Hops(maxRedirects: int): nat {
    if maxRedirects < 0 then 0 else maxRedirects
  }

  /** `Do` / `DoStream` with that many attempts left. */
  function Try(w: World, req: Request, attempts: nat, limit: nat, i: nat): Call {
    if attempts == 0 then Call(Ok(Nothing), [], None)
    else
      var call := Follow(w, req, 0, limit, i);
      if call.result.Ok? || !call.result.error.Retryable() || attempts == 1 then call
      else if w.stops(i + |call.log|) then call.(result := Err(ContextEnded))
      else
        var rest := Try(w, req, attempts - 1, limit, i + |call.log|);
        rest.(log := call.log + rest.log)
  }

  function Do(w: World, req: Request, maxRetries: int, maxRedirects: int, i: nat): Call {
    Try(w, req, if maxRetries < 0 then 0 else maxRetries + 1, Hops(maxRedirects), i)
  }

  // ----- how the exchanges hang together

  /** How an attempt stands after an exchange: it has failed, has its response, or goes on. */
  datatype Standing = Fails(err: Error) | Ends(final: Final) | GoesOn

  function StandingAfter(keep: bool, e: Entry, limit: nat): Standing {
    if !e.reply.Answer? then Fails(e.reply.err)
    else if !keep && e.reply.body.Err? then Fails(e.reply.body.error)
    else if !Redirecting(e.reply) then Ends(Response(e.reply.status))
    else if e.reply.next.Err? then Fails(e.reply.next.error)
    else if e.hop >= limit then Fails(TooManyRedirects)
    else GoesOn
  }

  /** Each exchange either starts an attempt with the original request, the first one or a retry
      after a failure that may be retried, or follows the redirect of the exchange before it. */
  ghost predicate Chained(keep: bool, log: seq<Entry>, req: Request, limit: nat) {
    forall i: nat :: i < |log| ==> ChainedAt(keep, log, i, req, limit)
  }

  /** What Chained says of one place in a log. */
  ghost predicate ChainedAt(keep: bool, log: seq<Entry>, i: nat, req: Request, limit: nat) {
    && i < |log| && log[i].hop <= limit
    && if log[i].hop == 0 then log[i].req == req && (i == 0 || MayRetry(keep, log[i - 1], limit))
       else i > 0 && Follows(log[i - 1], log[i])
  }

  predicate MayRetry(keep: bool, e: Entry, limit: nat) {
    StandingAfter(keep, e, limit).Fails? && StandingAfter(keep, e, limit).err.Retryable()
  }

  predicate Follows(a: Entry, b: Entry) {
    && b.hop == a.hop + 1 && Redirecting(a.reply) && a.reply.next.Ok?
    && b.req == NextRequest(a.req, a.reply.next.value, a.reply.status)
  }

  lemma {:induction false} FollowChains(w: World, req: Request, hop: nat, limit: nat, i: nat)
    requires hop <= limit
    ensures var log := Follow(w, req, hop, limit, i).log;
            && log[0].req == req
            && (forall j :: 0 <= j < |log| ==> log[j].hop == hop + j <= limit)
            && (forall j :: 0 < j < |log| ==> Follows(log[j - 1], log[j]))
    decreases limit - hop
  {
    hide NextRequest, Redirecting;
    var reply := w.script(i);
    var log := Follow(w, req, hop, limit, i).log;
    if |log| > 1 {
      var next := NextRequest(req, reply.next.value, reply.status);
      FollowChains(w, next, hop + 1, limit, i + 1);
      var rest := Follow(w, next, hop + 1, limit, i + 1).log;
      assert log == [Entry(req, hop, reply)] + rest;
      assert forall j :: 1 <= j < |log| ==> log[j] == rest[j - 1];
    }
  }

  /** The result of an attempt is what its last exchange comes to, and no exchange before that one
      had ended it. */
  lemma {:induction false} FollowEndsLast(w: World, req: Request, hop: nat, limit: nat, i: nat)
    requires hop <= limit
    ensures var call := Follow(w, req, hop, limit, i);
            && StandingAfter(w.keep, call.log[|call.log| - 1], limit) ==
               (if call.result.Ok? then Ends(call.result.value) else Fails(call.result.error))
            && (forall j :: 0 <= j < |call.log| - 1 ==> StandingAfter(w.keep, call.log[j], limit).GoesOn?)
    decreases limit - hop
  {
    hide NextRequest, Redirecting, Follow;
    FollowUnfolds(w, req, hop, limit, i);
    var reply := w.script(i);
    var log := Follow(w, req, hop, limit, i).log;
    if |log| > 1 {
      var next := NextRequest(req, reply.next.value, reply.status);
      FollowEndsLast(w, next, hop + 1, limit, i + 1);
      var rest := Follow(w, next, hop + 1, limit, i + 1).log;
      assert log == [Entry(req, hop, reply)] + rest;
      assert forall j :: 1 <= j < |log| ==> log[j] == rest[j - 1];
    }
  }

  lemma FollowIsChained(w: World, req: Request, limit: nat, i: nat)
    ensures Chained(w.keep, Follow(w, req, 0, limit, i).log, req, limit)
  {
    hide Follow, Follows, MayRetry;
    FollowChains(w, req, 0, limit, i);
  }

  lemma ChainsJoin(keep: bool, a: seq<Entry>, b: seq<Entry>, req: Request, limit: nat)
    requires Chained(keep, a, req, limit) && Chained(keep, b, req, limit)
    requires a != [] && MayRetry(keep, a[|a| - 1], limit)
    ensures Chained(keep, a + b, req, limit)
  {
    hide Follows, MayRetry;
    forall i: nat | i < |a + b|
      ensures ChainedAt(keep, a + b, i, req, limit)
    {
      if i < |a| {
        assert ChainedAt(keep, a, i, req, limit);
      } else {
        assert ChainedAt(keep, b, i - |a|, req, limit);
      }
    }
  }

  /** Every retry restarts from the original request and comes after a failure that may be retried,
      every other exchange follows the redirect before it, and there are at most
      attempts * (limit + 1) exchanges. */
  lemma {:induction false} TryIsChained(w: World, req: Request, attempts: nat, limit: nat, i: nat)
    ensures var log := Try(w, req, attempts, limit, i).log;
            Chained(w.keep, log, req, limit) && |log| <= attempts * (limit + 1)
    decreases attempts
  {
    hide Follow, Chained, StandingAfter;
    if attempts == 0 {
      assert Chained(w.keep, [], req, limit) by { NothingIsChained(w.keep, req, limit); }
    } else {
      var call := Follow(w, req, 0, limit, i);
      FollowIsChained(w, req, limit, i);
      FollowEndsLast(w, req, 0, limit, i);
      TryIsChained(w, req, attempts - 1, limit, i + |call.log|);
      assert attempts * (limit + 1) == (limit + 1) + (attempts - 1) * (limit + 1);
      assert (attempts - 1) * (limit + 1) >= 0;
      if call.result.Err? && call.result.error.Retryable() {
        ChainsJoin(w.keep, call.log, Try(w, req, attempts - 1, limit, i + |call.log|).log, req, limit);
      }
    }
  }

  lemma NothingIsChained(keep: bool, req: Request, limit: nat)
    ensures Chained(keep, [], req, limit)
  {
  }

  /** The bound on the exchanges of a call, and what they are. */
  lemma DoIsBounded(w: World, req: Request, maxRetries: int, maxRedirects: int, i: nat)
    requires maxRetries >= 0
    ensures var log := Do(w, req, maxRetries, maxRedirects, i).log;
            && |log| <= (maxRetries + 1) * (Hops(maxRedirects) + 1)
            && Chained(w.keep, log, req, Hops(maxRedirects))
  {
    TryIsChained(w, req, maxRetries + 1, Hops(maxRedirects), i);
  }

  /** The result of a call is what its last exchange comes to: the response, or the error. Only when
      that error may be retried, attempts are left and the context ends in the pause behind it, the
      result is the context's error instead. */
  lemma {:induction false} TryEndsLast(w: World, req: Request, attempts: nat, limit: nat, i: nat)
    requires attempts > 0
    ensures var call := Try(w, req, attempts, limit, i);
            && call.log != []
            && match StandingAfter(w.keep, call.log[|call.log| - 1], limit)
               case Ends(final) => call.result == Ok(final) && final.Response?
               case Fails(err) =>
                 || call.result == Err(err)
                 || (call.result == Err(ContextEnded) && err.Retryable() && w.stops(i + |call.log|))
               case GoesOn => false
    decreases attempts
  {
    hide Follow, Try;
    TryUnfolds(w, req, attempts, limit, i);
    FollowEndsLast(w, req, 0, limit, i);
    var call := Follow(w, req, 0, limit, i);
    if attempts > 1 {
      TryEndsLast(w, req, attempts - 1, limit, i + |call.log|);
    }
  }

  /** A call comes to neither a response nor an error exactly when MaxRetries is negative: the loop
      is not entered at all. */
  lemma NothingIffNegative(w: World, req: Request, maxRetries: int, maxRedirects: int, i: nat)
    ensures Do(w, req, maxRetries, maxRedirects, i).result == Ok(Nothing) <==> maxRetries < 0
    ensures maxRetries < 0 ==> Do(w, req, maxRetries, maxRedirects, i).log == []
  {
    if maxRetries >= 0 {
      hide Try, StandingAfter;
      TryEndsLast(w, req, maxRetries + 1, Hops(maxRedirects), i);
    }
  }

  /** Once a 303, or a 301 or 302 on a POST, was followed, all later hops of the attempt are plain
      GETs: no body, no Content-Length, no Content-Type. */
  lemma {:induction false} PlainAfterRewrite(keep: bool, log: seq<Entry>, req: Request, limit: nat, i: nat, j: nat)
    requires Chained(keep, log, req, limit) && i < j < |log|
    requires forall m :: i < m <= j ==> log[m].hop > 0
    requires log[i].reply.Answer? && Rewrites(log[i].req.method', log[i].reply.status)
    ensures PlainGet(log[j].req)
    decreases j
  {
    hide Rewrites, PlainGet, NextRequest, MayRetry;
    var a := log[j - 1];
    assert ChainedAt(keep, log, j, req, limit);
    if i < j - 1 {
      PlainAfterRewrite(keep, log, req, limit, i, j - 1);
    }
    NextRequestPlain(a.req, a.reply.next.value, a.reply.status);
  }

  lemma UpperIs(s: bytes, t: bytes)
    requires forall i :: 0 <= i < |t| ==> 65 <= t[i] <= 90
    ensures Upper(s) == t <==> EqualFold(s, t)
  {
    if |s| == |t| {
      forall i | 0 <= i < |s|
        ensures Upper(s)[i] == t[i] <==> LowerCase(s[i]) == LowerCase(t[i])
      {
      }
    }
  }

  /** Which redirects turn the request into a GET: 303, and 301 or 302 on a POST in any case. */
  lemma RewritesIff(method': bytes, status: int)
    ensures Rewrites(method', status) <==>
            status == 303 || (status in {301, 302} && EqualFold(TrimSpace(method'), Ascii("POST")))
  {
    hide EqualFold, TrimSpace, Upper;
    assert forall i :: 0 <= i < |POST| ==> 65 <= POST[i] <= 90;
    UpperIs(TrimSpace(method'), POST);
  }

  /** One redirect. It leads to the resolved location. Host is dropped; when the request becomes a GET
      so are the body and the two headers that describe it; everything else stays. */
  lemma NextRequestMeans(req: Request, url: bytes, status: int)
    ensures var b := NextRequest(req, url, status);
            var host, length, type' := Ascii("Host"), Ascii("Content-Length"), Ascii("Content-Type");
            && b.url == url && Lacks(b.headers, host)
            && b.headers.Keys <= req.headers.Keys
            && (Rewrites(req.method', status) ==>
                  && b.method' == Ascii("GET") && b.body == []
                  && Lacks(b.headers, length) && Lacks(b.headers, type')
                  && forall k :: k in req.headers && !EqualFold(TrimSpace(k), host)
                                 && !EqualFold(TrimSpace(k), length) && !EqualFold(TrimSpace(k), type') ==>
                       k in b.headers && b.headers[k] == req.headers[k])
            && (!Rewrites(req.method', status) ==>
                  && b.method' == req.method' && b.body == req.body
                  && forall k :: k in req.headers && !EqualFold(TrimSpace(k), host) ==>
                       k in b.headers && b.headers[k] == req.headers[k])
  {
    hide Rewrites, EqualFold, TrimSpace, Ascii;
    if Rewrites(req.method', status) {
      var once := RemoveHeader(req.headers, RequestText.CONTENT_LENGTH);
      var twice := RemoveHeader(once, CONTENT_TYPE);
      LacksMore(once, RequestText.CONTENT_LENGTH, CONTENT_TYPE);
      LacksMore(twice, RequestText.CONTENT_LENGTH, RequestText.HOST);
      LacksMore(twice, CONTENT_TYPE, RequestText.HOST);
    }
  }

  /** Every later hop follows an answer with status 301, 302, 303, 307 or 308 and a location that can
      be resolved: it asks there, without Host. Unless the redirect turns the request into a GET, it has
      the method, the body and all other headers of the hop before. */
  lemma RedirectKeepsRequest(keep: bool, log: seq<Entry>, req: Request, limit: nat, i: nat)
    requires Chained(keep, log, req, limit) && i < |log| && log[i].hop > 0
    ensures i > 0 && log[i - 1].reply.Answer?
    ensures var reply := log[i - 1].reply;
            && reply.status in {301, 302, 303, 307, 308} && reply.location != [] && reply.next.Ok?
            && log[i].hop == log[i - 1].hop + 1 <= limit && log[i].req.url == reply.next.value
    ensures var a, b, status := log[i - 1].req, log[i].req, log[i - 1].reply.status;
            var becomesGet :=
              status == 303 || (status in {301, 302} && EqualFold(TrimSpace(a.method'), Ascii("POST")));
            && Lacks(b.headers, Ascii("Host")) && b.headers.Keys <= a.headers.Keys
            && (becomesGet ==> PlainGet(b))
            && (!becomesGet ==>
                  && b.method' == a.method' && b.body == a.body
                  && forall k :: k in a.headers && !EqualFold(TrimSpace(k), Ascii("Host")) ==>
                       k in b.headers && b.headers[k] == a.headers[k])
  {
    hide Rewrites, MayRetry, EqualFold, TrimSpace, NextRequest, Lacks, Ascii;
    assert ChainedAt(keep, log, i, req, limit);
    var a, reply := log[i - 1].req, log[i - 1].reply;
    RewritesIff(a.method', reply.status);
    NextRequestMeans(a, reply.next.value, reply.status);
  }

  /** What an exchange comes to: no connection, a broken one and (for `Do`) a body that cannot be read
      fail; an answer that is no redirect, or has no location, is the response; a redirect fails if its
      location cannot be resolved or the limit is reached, and is followed otherwise. */
  lemma StandingMeans(keep: bool, e: Entry, limit: nat)
    ensures var r, st := e.reply, StandingAfter(keep, e, limit);
            var redirect := r.Answer? && r.status in {301, 302, 303, 307, 308} && r.location != [];
            && (!r.Answer? ==> st == Fails(r.err))
            && (r.Answer? && !keep && r.body.Err? ==> st == Fails(r.body.error))
            && (r.Answer? && (keep || r.body.Ok?) ==>
                  && (!redirect ==> st == Ends(Response(r.status)))
                  && (redirect && r.next.Err? ==> st == Fails(r.next.error))
                  && (redirect && r.next.Ok? && e.hop >= limit ==> st == Fails(TooManyRedirects))
                  && (redirect && r.next.Ok? && e.hop < limit ==> st == GoesOn))
  {
  }

  /** An attempt is retried only after a failure of the network that is sorted as such. */
  lemma RetriedAfter(keep: bool, log: seq<Entry>, req: Request, limit: nat, i: nat)
    requires Chained(keep, log, req, limit) && 0 < i < |log| && log[i].hop == 0
    ensures log[i].req == req && StandingAfter(keep, log[i - 1], limit) == Fails(Failure(true))
  {
    hide StandingAfter;
    assert ChainedAt(keep, log, i, req, limit);
  }

  // ----- the engine over its connections

  /** Follow, one exchange unfolded. */
  lemma FollowUnfolds(w: World, req: Request, hop: nat, limit: nat, i: nat)
    requires hop <= limit
    ensures var reply := w.script(i);
            var here := [Entry(req, hop, reply)];
            Follow(w, req, hop, limit, i) ==
            if !reply.Answer? then Call(Err(reply.err), here, None)
            else if !w.keep && reply.body.Err? then Call(Err(reply.body.error), here, None)
            else if !Redirecting(reply) then Call(Ok(Response(reply.status)), here, if w.keep then Some(i) else None)
            else if reply.next.Err? then Call(Err(reply.next.error), here, None)
            else if hop == limit then Call(Err(TooManyRedirects), here, None)
            else
              var rest := Follow(w, NextRequest(req, reply.next.value, reply.status), hop + 1, limit, i + 1);
              rest.(log := here + rest.log)
  {
    hide NextRequest, Redirecting;
  }

  lemma TryNothing(w: World, req: Request, limit: nat, i: nat)
    ensures Try(w, req, 0, limit, i) == Call(Ok(Nothing), [], None)
  {
  }

  /** One attempt of a call: a response, an error that may not be retried or the last attempt ends the
      call; a context that ends in the pause ends it with its own error; otherwise the next attempt
      begins with the original request. */
  lemma TryUnfolds(w: World, req: Request, attempts: nat, limit: nat, i: nat)
    requires attempts > 0
    ensures var call := Follow(w, req, 0, limit, i);
            Try(w, req, attempts, limit, i) ==
            if call.result.Ok? || !call.result.error.Retryable() || attempts == 1 then call
            else if w.stops(i + |call.log|) then call.(result := Err(ContextEnded))
            else
              var rest := Try(w, req, attempts - 1, limit, i + |call.log|);
              rest.(log := call.log + rest.log)
  {
    hide Follow;
  }

  // ----- when a call goes on

  /** How many attempts a log holds. */
  function Attempts(log: seq<Entry>): nat {
    if log == [] then 0 else (if log[0].hop == 0 then 1 else 0) + Attempts(log[1..])
  }

  lemma {:induction false} AttemptsJoin(a: seq<Entry>, b: seq<Entry>)
    ensures Attempts(a + b) == Attempts(a) + Attempts(b)
  {
    if a == [] {
      assert a + b == b;
    } else {
      assert (a + b)[0] == a[0] && (a + b)[1..] == a[1..] + b;
      AttemptsJoin(a[1..], b);
    }
  }

  lemma {:induction false} NoNewAttempt(log: seq<Entry>)
    requires forall j :: 0 <= j < |log| ==> log[j].hop > 0
    ensures Attempts(log) == 0
  {
    if log != [] {
      NoNewAttempt(log[1..]);
    }
  }

  lemma FollowIsOneAttempt(w: World, req: Request, limit: nat, i: nat)
    ensures Attempts(Follow(w, req, 0, limit, i).log) == 1
  {
    hide Follow;
    FollowChains(w, req, 0, limit, i);
    var log := Follow(w, req, 0, limit, i).log;
    NoNewAttempt(log[1..]);
  }

  /** The context does not end in any pause that another attempt of the log comes after. */
  ghost predicate PausesEndWell(w: World, log: seq<Entry>, i: nat) {
    forall j :: 0 < j < |log| && log[j].hop == 0 ==> !w.stops(i + j)
  }

  lemma PausesJoin(w: World, a: seq<Entry>, b: seq<Entry>, i: nat)
    requires a != [] && (forall j :: 0 < j < |a| ==> a[j].hop > 0)
    requires PausesEndWell(w, b, i + |a|) && !w.stops(i + |a|)
    ensures PausesEndWell(w, a + b, i)
  {
    forall j | 0 < j < |a + b| && (a + b)[j].hop == 0
      ensures !w.stops(i + j)
    {
      if j > |a| {
        assert b[j - |a|].hop == 0;
        assert !w.stops(i + |a| + (j - |a|));
      }
    }
  }

  /** When a call goes on and how it ends. There is no attempt after a pause in which the context has
      ended. When the last exchange comes to a failure that may be retried, the attempts are used up and
      the call fails with it, or the context has ended in the pause and the call fails with its error. */
  lemma {:induction false} CallEnds(w: World, req: Request, attempts: nat, limit: nat, i: nat)
    requires attempts > 0
    ensures var call := Try(w, req, attempts, limit, i);
            && call.log != [] && 1 <= Attempts(call.log) <= attempts && PausesEndWell(w, call.log, i)
            && match StandingAfter(w.keep, call.log[|call.log| - 1], limit)
               case GoesOn => false
               case Ends(final) => call.result == Ok(final)
               case Fails(err) =>
                 if err.Failure? && err.canRetry && Attempts(call.log) < attempts
                 then w.stops(i + |call.log|) && call.result == Err(ContextEnded)
                 else call.result == Err(err)
    decreases attempts
  {
    hide Follow, Try, Attempts, StandingAfter;
    TryUnfolds(w, req, attempts, limit, i);
    FollowEndsLast(w, req, 0, limit, i);
    FollowChains(w, req, 0, limit, i);
    FollowIsOneAttempt(w, req, limit, i);
    var call := Follow(w, req, 0, limit, i);
    var j := i + |call.log|;
    if call.result.Err? && call.result.error.Retryable() && attempts > 1 && !w.stops(j) {
      CallEnds(w, req, attempts - 1, limit, j);
      var rest := Try(w, req, attempts - 1, limit, j);
      AttemptsJoin(call.log, rest.log);
      PausesJoin(w, call.log, rest.log, i);
      assert i + |call.log + rest.log| == j + |rest.log|;
    }
  }

  // ----- the connections

  /** The connection inside the stream that a call returns. */
  function Held(held: Option<nat>): set<nat> {
    if held.Some? then {held.value} else {}
  }

  lemma OneFailedWrite(e: Entry, i: nat)
    ensures FailedWrites([e], i) == if Breaks(e.reply, WriteFails) then {i} else {}
  {
    assert FailedWrites([e][1..], i + 1) == {};
  }

  lemma {:induction false} FailedWritesJoin(a: seq<Entry>, b: seq<Entry>, i: nat)
    ensures FailedWrites(a + b, i) == FailedWrites(a, i) + FailedWrites(b, i + |a|)
    ensures FailedWrites(a, i) !! FailedWrites(b, i + |a|)
    decreases |a|
  {
    if a == [] {
      assert a + b == b;
    } else {
      FailedWritesJoin(a[1..], b, i + 1);
      assert (a + b)[0] == a[0] && (a + b)[1..] == a[1..] + b;
    }
  }

  lemma {:induction false} FailedWriteAt(log: seq<Entry>, i: nat, id: nat)
    ensures id in FailedWrites(log, i) <==> i <= id < i + |log| && Breaks(log[id - i].reply, WriteFails)
    decreases |log|
  {
    if log != [] {
      FailedWriteAt(log[1..], i + 1, id);
    }
  }

  /** A failed write ends its attempt, so it can only be the last exchange of the attempt. */
  lemma FollowFailsOnce(w: World, req: Request, limit: nat, i: nat)
    ensures var log := Follow(w, req, 0, limit, i).log;
            FailedWrites(log, i) <= {i + |log| - 1}
  {
    hide Follow, FailedWrites;
    FollowEndsLast(w, req, 0, limit, i);
    var log := Follow(w, req, 0, limit, i).log;
    forall id | id in FailedWrites(log, i)
      ensures id == i + |log| - 1
    {
      FailedWriteAt(log, i, id);
      assert StandingAfter(w.keep, log[id - i], limit).Fails?;
    }
  }

  lemma NoFailedWrites(i: nat)
    ensures FailedWrites([], i) == {}
  {
  }

  lemma AtMostOne(s: set<nat>, x: nat)
    requires s <= {x}
    ensures |s| <= 1
  {
    assert s == {} || s == {x};
  }

  /** A call leaves at most one connection per attempt behind. */
  lemma {:induction false} FailedWritesBounded(w: World, req: Request, attempts: nat, limit: nat, i: nat)
    ensures |FailedWrites(Try(w, req, attempts, limit, i).log, i)| <= attempts
    decreases attempts
  {
    hide Follow, Try, FailedWrites;
    if attempts == 0 {
      TryNothing(w, req, limit, i);
      assert FailedWrites([], i) == {} by { NoFailedWrites(i); }
    } else {
      TryUnfolds(w, req, attempts, limit, i);
      var call := Follow(w, req, 0, limit, i);
      var j := i + |call.log|;
      FollowFailsOnce(w, req, limit, i);
      assert |FailedWrites(call.log, i)| <= 1 by { AtMostOne(FailedWrites(call.log, i), j - 1); }
      FailedWritesBounded(w, req, attempts - 1, limit, j);
      FailedWritesJoin(call.log, Try(w, req, attempts - 1, limit, j).log, i);
    }
  }

  /** A network on which writing the request always fails with an error that may be retried. */
  function BrokenNetwork(keep: bool): World {
    World(_ => Broken(WriteFails, Failure(true)), _ => false, keep)
  }

  lemma BrokenAttempt(keep: bool, req: Request, limit: nat, i: nat)
    ensures var e := Entry(req, 0, Broken(WriteFails, Failure(true)));
            Follow(BrokenNetwork(keep), req, 0, limit, i) == Call(Err(Failure(true)), [e], None)
            && FailedWrites([e], i) == {i} && !BrokenNetwork(keep).stops(i + 1)
  {
    hide Follow, FailedWrites;
    FollowUnfolds(BrokenNetwork(keep), req, 0, limit, i);
    OneFailedWrite(Entry(req, 0, Broken(WriteFails, Failure(true))), i);
  }

  /** There every attempt leaves its connection behind: the bound is reached. */
  lemma {:induction false} EveryAttemptFails(keep: bool, req: Request, attempts: nat, limit: nat, i: nat)
    ensures var log := Try(BrokenNetwork(keep), req, attempts, limit, i).log;
            |log| == attempts && |FailedWrites(log, i)| == attempts
    decreases attempts
  {
    hide Try, Follow, FailedWrites, BrokenNetwork;
    var w := BrokenNetwork(keep);
    if attempts == 0 {
      TryNothing(w, req, limit, i);
      NoFailedWrites(i);
    } else {
      TryUnfolds(w, req, attempts, limit, i);
      BrokenAttempt(keep, req, limit, i);
      if attempts > 1 {
        var here, rest := Follow(w, req, 0, limit, i).log, Try(w, req, attempts - 1, limit, i + 1).log;
        EveryAttemptFails(keep, req, attempts - 1, limit, i + 1);
        FailedWritesJoin(here, rest, i);
      }
    }
  }

  class Engine {
    const w: World
    var log: seq<Entry>
    /** The connections that are open, by the number of their exchange. */
    var open: set<nat>
    /** The TCP clients whose `isClosed` is set. */
    var marked: set<nat>

    constructor (w: World)
      ensures this.w == w && log == [] && open == {} && marked == {}
    {
      this.w, log, open, marked := w, [], {}, {};
    }

    ghost predicate Valid()
      reads this
    {
      (forall id <- open :: id < |log|) && (forall id <- marked :: id < |log|)
    }

    /** `TCPClient.Close`: a client that is marked already is left alone, with its connection. */
    method CloseClient(id: nat)
      requires Valid() && id < |log|
      modifies this`open, this`marked
      ensures Valid() && marked == old(marked) + {id}
      ensures open == if id in old(marked) then old(open) else old(open) - {id}
    {
      if id in marked { return; }
      marked := marked + {id};
      open := open - {id};
    }

    /** `doStreamOnce`: on success the connection stays open. Each of the failing exits after the dial
        calls `Close`, but a failed write has marked the client before, and its connection stays open. */
    method StreamOnce(req: Request, hop: nat) returns (err: Option<Error>, id: nat)
      requires Valid()
      modifies this
      ensures Valid() && id == |old(log)| && log == old(log) + [Entry(req, hop, w.script(id))]
      ensures err.None? <==> w.script(id).Answer?
      ensures err.Some? ==>
                err.value == w.script(id).err && open == old(open) + FailedWrites([log[id]], id)
      ensures err.None? ==> open == old(open) + {id} && id !in marked
    {
      id := |log|;
      var reply := w.script(id);
      OneFailedWrite(Entry(req, hop, reply), id);
      hide FailedWrites;
      log := log + [Entry(req, hop, reply)];
      if reply.NoConnection? { return Some(reply.err), id; }
      open := open + {id};
      if Breaks(reply, WriteFails) {
        marked := marked + {id};
        CloseClient(id);
        return Some(reply.err), id;
      }
      if Breaks(reply, WriteTakesNothing) {
        CloseClient(id);
        return Some(reply.err), id;
      }
      if Breaks(reply, ReadStatusLine) {
        CloseClient(id);
        return Some(reply.err), id;
      }
      if Breaks(reply, ParseStatus) {
        CloseClient(id);
        return Some(reply.err), id;
      }
      if Breaks(reply, ReadHeaders) {
        CloseClient(id);
        return Some(reply.err), id;
      }
      if Breaks(reply, ChooseBody) {
        CloseClient(id);
        return Some(reply.err), id;
      }
      if Breaks(reply, Decompress) {
        CloseClient(id);
        return Some(reply.err), id;
      }
      return None, id;
    }

    /** `doOnce` reads the body and closes the connection; for a stream both are the caller's. */
    method Once(req: Request, hop: nat) returns (err: Option<Error>, id: nat)
      requires Valid()
      modifies this
      ensures Valid() && id == |old(log)| && log == old(log) + [Entry(req, hop, w.script(id))]
      ensures var reply := w.script(id);
              err == if !reply.Answer? then Some(reply.err)
                     else if !w.keep && reply.body.Err? then Some(reply.body.error) else None
      ensures open == if err.None? && w.keep then old(open) + {id} else old(open) + FailedWrites([log[id]], id)
      ensures err.None? && w.keep ==> id !in marked
    {
      err, id := StreamOnce(req, hop);
      OneFailedWrite(log[id], id);
      hide FailedWrites;
      if err.Some? || w.keep { return; }
      CloseClient(id);
      var body := w.script(id).body;
      if body.Err? { err := Some(body.error); }
    }

    /** `doWithRedirects` and `doStreamWithRedirects`. */
    method WithRedirects(req: Request, maxRedirects: int)
      returns (result: Result<Final, Error>, ghost held: Option<nat>)
      requires Valid()
      modifies this
      ensures Valid()
      ensures var call := Follow(w, req, 0, Hops(maxRedirects), |old(log)|);
              && result == call.result && held == call.held && log == old(log) + call.log
              && open == old(open) + FailedWrites(call.log, |old(log)|) + Held(held)
      ensures held.Some? ==> result.Ok?
    {
      hide NextRequest, IsRedirect, Follow, FailedWrites;
      var limit := if maxRedirects < 0 then 0 else maxRedirects;
      var current := req;
      var count := 0;
      ghost var whole := Follow(w, req, 0, limit, |log|);
      while count <= limit
        invariant 0 <= count <= limit && Valid() && open == old(open) && |old(log)| <= |log|
        invariant var rest := Follow(w, current, count, limit, |log|);
                  && rest.result == whole.result && rest.held == whole.held
                  && log + rest.log == old(log) + whole.log
                  && FailedWrites(rest.log, |log|) == FailedWrites(whole.log, |old(log)|)
        decreases limit - count
      {
        FollowUnfolds(w, current, count, limit, |log|);
        var err, id := Once(current, count);
        var reply := w.script(id);
        OneFailedWrite(log[id], id);
        if err.Some? { return Err(err.value), None; }
        if !IsRedirect(reply.status) || reply.location == [] {
          return Ok(Response(reply.status)), if w.keep then Some(id) else None;
        }
        if w.keep { CloseClient(id); }
        if reply.next.Err? { return Err(reply.next.error), None; }
        if count == limit { return Err(TooManyRedirects), None; }
        ghost var here, entry := log[..id], [log[id]];
        current := NextRequest(current, reply.next.value, reply.status);
        count := count + 1;
        ghost var rest := Follow(w, current, count, limit, |log|).log;
        Regroup(here, entry, rest);
        FailedWritesJoin(entry, rest, id);
      }
      return Err(TooManyRedirects), None;
    }

    /** `Do` and `DoStream`: of the connections that the call opened, exactly those stay open on which
        writing the request failed, and the one inside the stream that is returned. */
    method Perform(req: Request, maxRetries: int, maxRedirects: int)
      returns (result: Result<Final, Error>, ghost held: Option<nat>)
      requires Valid()
      modifies this
      ensures Valid()
      ensures var call := Do(w, req, maxRetries, maxRedirects, |old(log)|);
              && result == call.result && held == call.held && log == old(log) + call.log
              && open == old(open) + FailedWrites(call.log, |old(log)|) + Held(held)
      ensures held.Some? ==> result.Ok? && w.keep
    {
      hide Follow, Hops, Try, FailedWrites;
      ghost var limit := Hops(maxRedirects);
      ghost var whole := Do(w, req, maxRetries, maxRedirects, |log|);
      var attempt := 0;
      NoFailedWrites(|log|);
      ghost var failed: set<nat> := {};
      while attempt <= maxRetries
        invariant 0 <= attempt && Valid() && open == old(open) + failed
        invariant attempt <= maxRetries || attempt == 0
        invariant var left := if maxRetries < attempt then 0 else maxRetries + 1 - attempt;
                  var rest := Try(w, req, left, limit, |log|);
                  && rest.result == whole.result && rest.held == whole.held
                  && log + rest.log == old(log) + whole.log
                  && failed + FailedWrites(rest.log, |log|) == FailedWrites(whole.log, |old(log)|)
        decreases maxRetries + 1 - attempt
      {
        TryUnfolds(w, req, maxRetries + 1 - attempt, limit, |log|);
        ghost var before := log;
        result, held := WithRedirects(req, maxRedirects);
        if result.Ok? { return; }
        if !result.error.Retryable() { return; }
        if attempt == maxRetries { return; }
        if w.stops(|log|) { return Err(ContextEnded), None; }
        attempt := attempt + 1;
        ghost var here, rest := log[|before|..], Try(w, req, maxRetries + 1 - attempt, limit, |log|).log;
        Regroup(before, here, rest);
        FailedWritesJoin(here, rest, |before|);
        failed := failed + FailedWrites(here, |before|);
      }
      TryNothing(w, req, limit, |log|);
      NoFailedWrites(|log|);
      return Ok(Nothing), None;
    }
  }
}
