# Skill-sharing client: synchronisation and dispatch, in Dafny

This project models the core of the browser client of a skill-sharing site
(`client.js`). The client keeps a local copy of a server-held list of talks
(title, presenter, summary, comments) and a display name. It changes that
list only by sending HTTP requests, and it learns of changes through a
long-polling loop. The model covers:

- the action reducer `handleAction` and its URL helper `talkURL`, including the
  `encodeURIComponent` percent-encoding that `talkURL` relies on (ECMA-262,
  section 19.2.6.5: UTF-8 octets as upper-case `%XX`, with the unreserved set
  `A-Z a-z 0-9 - _ . ! ~ * ' ( )` left as is);
- the long-poll loop `pollTalks`, its change-detection tag (an HTTP entity
  tag, section 2.3 of RFC 7232) and its conditional `If-None-Match` header
  (section 3.2 of RFC 7232);
- the dispatch coordinator in `runApp`, which reads and reassigns the
  `state` and `app` variables (the model assumes both exist and start out
  undefined; see `App.Client.Update` under "Left out");
- the list cache of `SkillShareApp.syncState`, which decides whether the talk
  list is rendered again.

Modules, one file each:

- `Wrappers` (wrappers.dfy): `Option`.
- `Uri` (uri.dfy): `EncodeURIComponent` and an inverse `Decode`. The inverse
  percent-decodes to octets and then decodes UTF-8, refusing malformed and
  overlong sequences. It is the reading the server applies to a path segment.
- `Talks` (talks.dfy): `Comment`, `Talk`, `AppState`, and the class
  `TalkList`. A list of talks is an object with identity, as a JavaScript
  array is, so the view's cache can compare lists by identity.
- `Actions` (actions.dfy): the `Action` datatype with the five tags plus
  `Other`, whose tag is none of the five. Also `Command`, `Storage`, `TalkURL`,
  the pure reducer `Reduce` (next state plus the one request, if any) and the
  method `HandleAction`, which performs the storage write. `ServerRoute` is
  the server's reading of a request: method, `talks/{title}[/comments]` and
  payload. It is the reference used to show that every request reaches the
  talk its action names.
- `Polling` (polling.dfy): the step-by-step specification of `pollTalks`.
  `Trace` gives the events of the loop (requests with their headers, sleeps,
  updates) for a finite script of already-classified responses
  (`Failed | NotModified | Ok(etag, body)`); lemmas state the counting,
  ordering and tag rules.
- `View` (view.dfy): `SkillShareApp` reduced to the cached list, the talks
  rendered into the container, and a "rerendered" flag.
- `App` (app.dfy): the class `Client` for `runApp`. It holds the stored-name
  read at start-up, `state`, `app` and a log of issued requests. Its methods
  are `Dispatch`, the poll callback `Update`, `PollOnce` (one turn of the
  poll loop) and `PollTalks`, which runs the poll loop over a script and
  calls `Update` for every non-304 success.

Inputs the client takes from outside become parameters:

- the classified responses become the poll script;
- the stored display name becomes the `Storage` object handed to `Client`;
- the parsed response body is the `Ok` entry's `body`.

The requests the reducer issues are recorded as `Command` values in
`Client.sent`; the loop's requests, sleeps and updates are returned as an
event log.

Two points where the code is weaker than the intent one might read into it,
and which the model follows as written:

- The display name is not kept non-empty. `setUser` stores and uses `""`; only
  the start-up read falls back to `"Anon"` (`InitialUser`).
- The mutation paths are relative (`talks/{title}`), while the poll uses the
  absolute `/talks`. `TalkURL` builds the relative path.

## Model

| member | source | states |
|---|---|---|
| `Uri.EncodeURIComponent` | client.js:37 | the encoded title holds only unreserved characters and `%`, so it can never hold a `/` (or `?`, `#`) |
| `Uri.DecodeEncode` | client.js:37 | percent-decoding and UTF-8 decoding an encoded string give it back exactly, for every string |
| `Uri.EncodeInjective` | client.js:36-38 | two different titles never encode alike, so they never share a path |
| `Actions.TalkURL` | client.js:36-38 | the path starts with `talks/`, the rest has no `/`, and decoding the rest gives the title back |
| `Actions.TalkURLSegments` | client.js:36-38 | a talk path is exactly two segments: `talks` and the encoded title |
| `Actions.CommentsURLSegments` | client.js:24 | the comment path is exactly three segments: `talks`, the encoded title, `comments` |
| `Actions.Reduce` | client.js:5-34 | a request is issued iff the action is newTalk, deleteTalk or newComment; setUser replaces only `user`; setTalks replaces only `talks`, with the given list itself; every other action, unknown tags included, returns the state unchanged; the three requests are `PUT talkURL(title)` with `{presenter: state.user, summary}`, `DELETE talkURL(talk)` and `POST talkURL(talk)/comments` with `{author: state.user, message}` |
| `Actions.HandleAction` | client.js:5-8 | its result is the reducer's; storage's `userName` becomes the new name on setUser and is untouched by every other action |
| `Actions.ReduceIdempotent` | client.js:9-10 | reducing the same action twice gives the state of reducing it once (setTalks with the same list is a no-op diff) |
| `Actions.RequestReachesNamedTalk` | client.js:11-31 | the server reads each issued request as acting on exactly the talk the action names, with the current user as presenter or author |
| `Actions.TalkURLOfUnreserved` | client.js:36-38 | a title made only of unreserved characters (such as "Rust") appears in its path as it is: `talks/` + title |
| `Actions.DeletePlainTitle` | client.js:20-22 | deleting a talk with a plain title such as "Rust" issues `DELETE talks/Rust` and returns the state unchanged |
| `Polling.PollHeaders` | client.js:116-118 | `If-None-Match: tag` and `Prefer: wait=90` are sent exactly when the tag is truthy (not absent, not empty) |
| `Polling.StepProjections` | client.js:116-126 | one iteration sends exactly one request with the current tag's headers; it sleeps 500 ms only on failure, and it updates only on a non-304 success, with that body |
| `Polling.TraceCounts` | client.js:113-127 | over any finite script: requests = script length, updates = the Ok bodies in order, sleeps = one 500 ms per failure |
| `Polling.RequestHeaders` | client.js:116-125 | the i-th request carries the headers of the tag left by the responses before it |
| `Polling.NextRequestHeaders` | client.js:119-125 | a failure or a 304 keeps the next request's headers; a non-304 success switches them to its own ETag's |
| `Polling.UnconditionalRequests` | client.js:112-118 | the first request is unconditional, and so is every request after a success without an ETag |
| `Polling.LongPollScenario` | client.js:124-126 | N 304s then one success give N+1 requests, no sleep and exactly one update with the body |
| `Polling.FailuresBackOff` | client.js:119-123 | K failures in a row alternate request and 500 ms sleep, with the tag kept throughout |
| `Polling.RecoveryScenario` | client.js:119-126 | K failures then one success give K+1 requests, K sleeps of 500 ms and one update |
| `View.SkillShareApp.constructor` | client.js:141 | a new view renders the initial state's talks and caches that list |
| `View.SkillShareApp.SyncState` | client.js:143-151 | it re-renders exactly when the state's list is not the cached one (by identity); it then shows that list in order and caches it; otherwise the rendered talks are unchanged |
| `App.InitialUser` | client.js:158 | the start-up name is the stored name when it is truthy and `"Anon"` otherwise, so it is never empty |
| `App.Client.constructor` | client.js:157-158 | the stored name is read once at start; there is no state, no view and no request yet |
| `App.Client.Dispatch` | client.js:159-162 | the new state is the reducer's, its request (if any) is appended to the issued requests, storage follows setUser, and the view's cache equals the new state's list; a re-render happens only for setTalks with a different list |
| `App.Client.Update` | client.js:163-170 | the first result creates the state `{user, talks}` with the start-up name and the view; every later result is the state of `setTalks` on the previous one (same user, new list) |
| `App.Client.PollOnce` | client.js:112-125 | one turn sends the request the tag calls for and produces exactly that step's events. The next tag is the old one after a failure or a 304, and the response's ETag after any other success. Only a success changes the state: its talks become the body and the user stays as it was |
| `App.Client.PollTalks` | client.js:111-128 | the loop's events are exactly the specified trace; after it the state's talks are the last Ok body, the user is the start-up or previous name, and no request or storage write happens |
| `App.NewTalkScenario` | client.js:11-19 | after a first poll with an empty list and no stored name, submitting a plain title such as "Rust" issues exactly one request, `PUT talks/Rust` with presenter "Anon". The state's list stays empty |

## Left out

- App.Client.Update: assumes the page provides `state` and `app` as
  variables that start out undefined. client.js never declares them
  (client.js:157-172). On a page that does not, the first non-304 poll
  result throws a ReferenceError when `!app` is read (client.js:164). The
  poll promise then rejects to `reportError` and polling stops, leaving no
  state and no view. The model creates the state and the view instead.
- App.Client.PollTalks: assumes every non-304 success has a body that
  parses and that `update` returns normally. At client.js:125-126 both
  steps sit outside the `try`. A body that `response.json()` rejects, or an
  exception thrown by `update`, therefore ends `pollTalks` for good (its
  promise rejects to `reportError`), and by then the tag has already been
  replaced. In the model every `Ok` carries a parsed body and the loop
  always continues.

- The HTTP exchange itself: `fetchOK` is not part of this model. Poll
  responses arrive already classified as `Failed`, `NotModified` or `Ok`, and
  the mutation requests are recorded, not performed. Their completion order
  relative to later polls, and the errors they report through `reportError`
  (`alert`), are not modelled.
- The `Content-Type: application/json` header and the JSON text of a request
  payload: a `Payload` value stands for `JSON.stringify` of the object.
  `response.json()` parsing is replaced by the `Ok` entry's `body`.
- How `fetch` treats a falsy `headers` option (`undefined`, `null` or `""`):
  the model sends no conditional headers then.
- `console.log` on a failed poll and the real `setTimeout` timing: a sleep
  is one logged 500 ms event.
- Concurrency: the poll loop and user actions are two producers of actions in
  the client. The model runs each step atomically and in sequence, and
  `PollTalks` consumes a finite script where the source loops forever.
- `Uri.EncodeURIComponent`: lone surrogates, the one input on which the
  built-in throws a `URIError`, cannot be written as Dafny characters; a
  character outside the Basic Multilingual Plane stands for its surrogate
  pair.
- The DOM: `elt`, `renderUserField`, `renderTalk`, `renderComment`,
  `renderTalkForm` and the DOM nodes built by the `SkillShareApp`
  constructor. The view keeps only the cached list and the talks rendered,
  and the event handlers appear only as the `Action` values they dispatch.
- `document.body.appendChild(app.dom)` and the `.catch(reportError)` on the
  poll promise.
