/** The long-poll loop `pollTalks` (client.js, section "Polling Mechanism"),
    specified step by step. The loop itself runs inside the client
    (App.Client.PollTalks); this module says what it must do: which request
    each iteration sends, when it sleeps, when it hands a body to its
    `update` callback, and how the change-detection tag (an HTTP entity tag,
    section 2.3 of RFC 7232) evolves. */
module Polling {
  import opened Wrappers
  import opened Talks

  /** One outcome of `fetchOK("/talks", ...)`, already classified. */
  datatype Response =
    | Failed                                  // fetchOK rejected: transport error or a failing status
    | NotModified                             // status 304
    | Ok(etag: Option<string>, body: seq<Talk>)  // any other success; the ETag header may be absent

  datatype Header = Header(name: string, value: string)

  /** What one iteration does, in the order it does it. */
  datatype Event =
    | Sent(headers: seq<Header>)   // GET /talks with these headers
    | Slept(ms: nat)               // setTimeout back-off
    | Updated(body: seq<Talk>)     // update(parsed body)

  const BackoffMs: nat := 500

  /** JavaScript truthiness of the tag: undefined, null and "" are falsy. */
  predicate Truthy(tag: Option<string>) {
    tag.Some? && tag.value != ""
  }

  /** `tag && {"If-None-Match": tag, "Prefer": "wait=90"}`: the conditional
      long-wait headers go out exactly when the tag is truthy (section 3.2
      of RFC 7232, If-None-Match). */
  function PollHeaders(tag: Option<string>): (h: seq<Header>)
    ensures h != [] <==> Truthy(tag)
    ensures Truthy(tag) ==> Header("If-None-Match", tag.value) in h && Header("Prefer", "wait=90") in h
  {
    if Truthy(tag) then [Header("If-None-Match", tag.value), Header("Prefer", "wait=90")] else []
  }

  /** The tag after one response: only a success other than 304 replaces it. */
  function NextTag(tag: Option<string>, r: Response): Option<string> {
    if r.Ok? then r.etag else tag
  }

  /** The events of one iteration, given the tag it starts with. */
  function StepEvents(tag: Option<string>, r: Response): seq<Event> {
    [Sent(PollHeaders(tag))] +
      match r
      case Failed => [Slept(BackoffMs)]
      case NotModified => []
      case Ok(_, body) => [Updated(body)]
  }

  /** The tag after a whole script of responses. */
  function TagAfter(tag: Option<string>, script: seq<Response>): Option<string>
    decreases |script|
  {
    if script == [] then tag else TagAfter(NextTag(tag, script[0]), script[1..])
  }

  /** Everything the loop does while it consumes the script. */
  function Trace(tag: Option<string>, script: seq<Response>): seq<Event>
    decreases |script|
  {
    if script == [] then [] else StepEvents(tag, script[0]) + Trace(NextTag(tag, script[0]), script[1..])
  }

  // ---- Projections of an event log.

  function Requests(log: seq<Event>): seq<seq<Header>> {
    if log == [] then []
    else (if log[0].Sent? then [log[0].headers] else []) + Requests(log[1..])
  }

  function Sleeps(log: seq<Event>): seq<nat> {
    if log == [] then []
    else (if log[0].Slept? then [log[0].ms] else []) + Sleeps(log[1..])
  }

  function Updates(log: seq<Event>): seq<seq<Talk>> {
    if log == [] then []
    else (if log[0].Updated? then [log[0].body] else []) + Updates(log[1..])
  }

  /** The bodies of the script's successful non-304 responses, in order. */
  function OkBodies(script: seq<Response>): seq<seq<Talk>> {
    if script == [] then []
    else (if script[0].Ok? then [script[0].body] else []) + OkBodies(script[1..])
  }

  function CountFailed(script: seq<Response>): nat {
    if script == [] then 0 else (if script[0].Failed? then 1 else 0) + CountFailed(script[1..])
  }

  function Repeat<T>(x: T, n: nat): (r: seq<T>)
    ensures |r| == n && forall i | 0 <= i < n :: r[i] == x
  {
    if n == 0 then [] else [x] + Repeat(x, n - 1)
  }

  lemma {:induction false} RequestsAppend(a: seq<Event>, b: seq<Event>)
    ensures Requests(a + b) == Requests(a) + Requests(b)
  {
    if a == [] {
      assert a + b == b;
    } else {
      assert (a + b)[0] == a[0] && (a + b)[1..] == a[1..] + b;
      RequestsAppend(a[1..], b);
    }
  }

  lemma {:induction false} SleepsAppend(a: seq<Event>, b: seq<Event>)
    ensures Sleeps(a + b) == Sleeps(a) + Sleeps(b)
  {
    if a == [] {
      assert a + b == b;
    } else {
      assert (a + b)[0] == a[0] && (a + b)[1..] == a[1..] + b;
      SleepsAppend(a[1..], b);
    }
  }

  lemma {:induction false} UpdatesAppend(a: seq<Event>, b: seq<Event>)
    ensures Updates(a + b) == Updates(a) + Updates(b)
  {
    if a == [] {
      assert a + b == b;
    } else {
      assert (a + b)[0] == a[0] && (a + b)[1..] == a[1..] + b;
      UpdatesAppend(a[1..], b);
    }
  }

  lemma ProjectionsAppend(a: seq<Event>, b: seq<Event>)
    ensures Requests(a + b) == Requests(a) + Requests(b)
    ensures Sleeps(a + b) == Sleeps(a) + Sleeps(b)
    ensures Updates(a + b) == Updates(a) + Updates(b)
  {
    RequestsAppend(a, b);
    SleepsAppend(a, b);
    UpdatesAppend(a, b);
  }

  lemma StepProjections(tag: Option<string>, r: Response)
    ensures Requests(StepEvents(tag, r)) == [PollHeaders(tag)]
    ensures Sleeps(StepEvents(tag, r)) == if r.Failed? then [BackoffMs] else []
    ensures Updates(StepEvents(tag, r)) == if r.Ok? then [r.body] else []
  {
    var e := StepEvents(tag, r);
    var rest := e[1..];
    if r.NotModified? {
      assert rest == [];
    } else {
      assert rest[1..] == [];
      assert Requests(rest) == [] && Sleeps(rest) == Sleeps([rest[0]]) && Updates(rest) == Updates([rest[0]]);
    }
  }

  /** Over any finite script: one request per response, one update per
      non-304 success carrying its body, in order, and one 500 ms sleep per
      failure. */
  lemma {:induction false} TraceCounts(tag: Option<string>, script: seq<Response>)
    ensures |Requests(Trace(tag, script))| == |script|
    ensures Updates(Trace(tag, script)) == OkBodies(script)
    ensures Sleeps(Trace(tag, script)) == Repeat(BackoffMs, CountFailed(script))
    decreases |script|
  {
    if script != [] {
      var r := script[0];
      ProjectionsAppend(StepEvents(tag, r), Trace(NextTag(tag, r), script[1..]));
      StepProjections(tag, r);
      TraceCounts(NextTag(tag, r), script[1..]);
    }
  }

  /** The trace and the tag of a script extended by one response: what the
      loop has done after one more iteration. */
  lemma {:induction false} TraceSnoc(tag: Option<string>, script: seq<Response>, r: Response)
    ensures TagAfter(tag, script + [r]) == NextTag(TagAfter(tag, script), r)
    ensures Trace(tag, script + [r]) == Trace(tag, script) + StepEvents(TagAfter(tag, script), r)
    decreases |script|
  {
    if script == [] {
      assert [r][1..] == [];
    } else {
      assert (script + [r])[0] == script[0] && (script + [r])[1..] == script[1..] + [r];
      TraceSnoc(NextTag(tag, script[0]), script[1..], r);
    }
  }

  lemma {:induction false} OkBodiesSnoc(script: seq<Response>, r: Response)
    ensures OkBodies(script + [r]) == OkBodies(script) + (if r.Ok? then [r.body] else [])
    decreases |script|
  {
    if script == [] {
      assert [r][1..] == [];
    } else {
      assert (script + [r])[0] == script[0] && (script + [r])[1..] == script[1..] + [r];
      OkBodiesSnoc(script[1..], r);
    }
  }

  /** The body of the last non-304 success of a script, if any. */
  function LastOk(script: seq<Response>): Option<seq<Talk>>
    decreases |script|
  {
    if script == [] then None
    else if script[|script| - 1].Ok? then Some(script[|script| - 1].body)
    else LastOk(script[..|script| - 1])
  }

  lemma {:induction false} LastOkIsLastBody(script: seq<Response>)
    ensures LastOk(script) == if OkBodies(script) == [] then None else Some(OkBodies(script)[|OkBodies(script)| - 1])
    decreases |script|
  {
    if script != [] {
      var init := script[..|script| - 1];
      var r := script[|script| - 1];
      assert script == init + [r];
      OkBodiesSnoc(init, r);
      LastOkIsLastBody(init);
    }
  }

  /** The i-th request carries the conditional headers of the tag the
      responses before it left. */
  lemma {:induction false} RequestHeaders(tag: Option<string>, script: seq<Response>, i: nat)
    requires i < |script|
    ensures |Requests(Trace(tag, script))| == |script|
    ensures Requests(Trace(tag, script))[i] == PollHeaders(TagAfter(tag, script[..i]))
    decreases i
  {
    TraceCounts(tag, script);
    var r := script[0];
    ProjectionsAppend(StepEvents(tag, r), Trace(NextTag(tag, r), script[1..]));
    StepProjections(tag, r);
    if i > 0 {
      RequestHeaders(NextTag(tag, r), script[1..], i - 1);
      assert script[..i][0] == r && script[..i][1..] == script[1..][..i - 1];
    }
  }

  /** How the tag carries from one request to the next: a failure or a 304
      leaves the next request's headers as they were, a non-304 success
      makes them those of its own ETag. */
  lemma NextRequestHeaders(tag: Option<string>, script: seq<Response>, i: nat)
    requires i + 1 < |script|
    ensures |Requests(Trace(tag, script))| == |script|
    ensures Requests(Trace(tag, script))[i + 1] ==
      if script[i].Ok? then PollHeaders(script[i].etag) else Requests(Trace(tag, script))[i]
  {
    RequestHeaders(tag, script, i);
    RequestHeaders(tag, script, i + 1);
    assert script[..i + 1] == script[..i] + [script[i]];
    TraceSnoc(tag, script[..i], script[i]);
  }

  /** The first request is unconditional, and so is every request that
      follows a success without an ETag. */
  lemma UnconditionalRequests(script: seq<Response>, i: nat)
    requires i < |script|
    requires i == 0 || (script[i - 1].Ok? && script[i - 1].etag.None?)
    ensures |Requests(Trace(None, script))| == |script|
    ensures Requests(Trace(None, script))[i] == []
  {
    if i == 0 {
      RequestHeaders(None, script, 0);
    } else {
      NextRequestHeaders(None, script, i - 1);
    }
  }

  /** A long poll that times out N times and then sees a change: N + 1
      requests, no back-off at all, and exactly one update with the body. */
  lemma LongPollScenario(tag: Option<string>, n: nat, etag: Option<string>, body: seq<Talk>)
    ensures var log := Trace(tag, Repeat(NotModified, n) + [Ok(etag, body)]);
      |Requests(log)| == n + 1 && Sleeps(log) == [] && Updates(log) == [body]
  {
    var script := Repeat(NotModified, n) + [Ok(etag, body)];
    TraceCounts(tag, script);
    OkBodiesSnoc(Repeat(NotModified, n), Ok(etag, body));
    NoOkNoFailure(Repeat(NotModified, n));
    CountFailedSnoc(Repeat(NotModified, n), Ok(etag, body));
  }

  lemma {:induction false} NoOkNoFailure(script: seq<Response>)
    requires forall i | 0 <= i < |script| :: script[i] == NotModified
    ensures OkBodies(script) == [] && CountFailed(script) == 0
  {
    if script != [] {
      NoOkNoFailure(script[1..]);
    }
  }

  lemma {:induction false} CountFailedSnoc(script: seq<Response>, r: Response)
    ensures CountFailed(script + [r]) == CountFailed(script) + (if r.Failed? then 1 else 0)
    decreases |script|
  {
    if script == [] {
      assert [r][1..] == [];
    } else {
      assert (script + [r])[0] == script[0] && (script + [r])[1..] == script[1..] + [r];
      CountFailedSnoc(script[1..], r);
    }
  }

  /** K transport failures in a row: each request is followed by one 500 ms
      sleep before the next, and the tag, with the headers it implies, is
      kept throughout. */
  lemma {:induction false} FailuresBackOff(tag: Option<string>, k: nat)
    ensures TagAfter(tag, Repeat(Failed, k)) == tag
    ensures Trace(tag, Repeat(Failed, k)) == Flat(Repeat([Sent(PollHeaders(tag)), Slept(BackoffMs)], k))
  {
    if k > 0 {
      FailuresBackOff(tag, k - 1);
      assert Repeat(Failed, k)[1..] == Repeat(Failed, k - 1);
      assert Repeat([Sent(PollHeaders(tag)), Slept(BackoffMs)], k)[1..] ==
        Repeat([Sent(PollHeaders(tag)), Slept(BackoffMs)], k - 1);
    }
  }

  function Flat<T>(xss: seq<seq<T>>): seq<T> {
    if xss == [] then [] else xss[0] + Flat(xss[1..])
  }

  /** K failures and then a success: K sleeps of 500 ms, one update. */
  lemma RecoveryScenario(tag: Option<string>, k: nat, etag: Option<string>, body: seq<Talk>)
    ensures var log := Trace(tag, Repeat(Failed, k) + [Ok(etag, body)]);
      |Requests(log)| == k + 1 && Sleeps(log) == Repeat(BackoffMs, k) && Updates(log) == [body]
  {
    var failures := Repeat(Failed, k);
    TraceCounts(tag, failures + [Ok(etag, body)]);
    OkBodiesSnoc(failures, Ok(etag, body));
    CountFailedSnoc(failures, Ok(etag, body));
    AllFailed(failures);
  }

  lemma {:induction false} AllFailed(script: seq<Response>)
    requires forall i | 0 <= i < |script| :: script[i] == Failed
    ensures OkBodies(script) == [] && CountFailed(script) == |script|
  {
    if script != [] {
      AllFailed(script[1..]);
    }
  }
}
