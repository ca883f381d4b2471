/** `runApp` (client.js, section "Running the App"): the single mutable state
    cell, `dispatch`, the callback handed to `pollTalks`, and the poll loop
    driving that callback. Dafny has no method-valued closures, so the loop
    of `pollTalks` is a method of the client calling the callback (Update)
    directly; what the loop must do on its own is specified in Polling. */
module App {
  import opened Wrappers
  import opened Talks
  import opened Actions
  import opened Polling
  import opened View

  /** `localStorage.getItem("userName") || "Anon"`. */
  function InitialUser(stored: Option<string>): (u: string)
    ensures u != ""
    ensures Polling.Truthy(stored) ==> u == stored.value
    ensures !Polling.Truthy(stored) ==> u == "Anon"
  {
    if stored.Some? && stored.value != "" then stored.value else "Anon"
  }

  class Client {
    const storage: Storage
    /** The display name read once, when the client starts. */
    const user: string
    /** `state`: absent until the first poll result arrives. */
    var state: Option<AppState>
    /** `app`: the view, created together with the first state. */
    var app: SkillShareApp?
    /** The requests the reducer has issued, in order. */
    var sent: seq<Command>

    /** A view exists exactly when a state does, and it shows the state's talks. */
    ghost predicate Valid()
      reads this, app
    {
      (state.None? <==> app == null) &&
      (app != null ==> app.Valid() && app.talks == state.value.talks)
    }

    /** runApp's start: read the stored name; no state, no view yet. */
    constructor (storage: Storage)
      ensures Valid()
      ensures this.storage == storage && user == InitialUser(storage.userName)
      ensures state == None && app == null && sent == []
    {
      this.storage := storage;
      user := InitialUser(storage.userName);
      state := None;
      app := null;
      sent := [];
    }

    /** `dispatch(action)`: replace the state with the reducer's, issue its
        request, then sync the view, which re-renders only for a new list. */
    method Dispatch(a: Action)
      requires Valid() && state.Some?
      modifies this, storage, app
      ensures Valid() && app == old(app)
      ensures state == Some(Reduce(old(state.value), a).state)
      ensures sent == old(sent) + match Reduce(old(state.value), a).request
        case None => []
        case Some(c) => [c]
      ensures storage.userName == if a.SetUser? then Some(a.user) else old(storage.userName)
      ensures app.rerendered <==> a.SetTalks? && a.talks != old(state.value.talks)
    {
      var next, request := HandleAction(storage, state.value, a);
      state := Some(next);
      if request.Some? {
        sent := sent + [request.value];
      }
      app.SyncState(next);
    }

    /** The callback given to `pollTalks`: the first result creates the
        state, from the stored name and the talks, and the view; every later
        one is dispatched as SetTalks. */
    method Update(talks: TalkList)
      requires Valid()
      modifies this, storage, app
      ensures Valid() && app != null
      ensures old(app) == null ==> fresh(app)
      ensures old(app) != null ==> app == old(app)
      ensures old(state).None? ==> state == Some(AppState(user, talks))
      ensures old(state).Some? ==> state == Some(Reduce(old(state).value, SetTalks(talks)).state)
      ensures state == Some(AppState(if old(state).None? then user else old(state).value.user, talks))
      ensures sent == old(sent) && storage.userName == old(storage.userName)
      ensures app.rerendered <==> old(state).None? || old(state).value.talks != talks
    {
      if app == null {
        var initial := AppState(user, talks);
        state := Some(initial);
        app := new SkillShareApp(initial);
      } else {
        Dispatch(SetTalks(talks));
      }
    }

    /** One turn of the `for (;;)` loop of `pollTalks`: send the request
        the tag calls for, then back off on failure, go round again on 304,
        or take the new tag and hand a freshly parsed list to Update. */
    method PollOnce(tag: Option<string>, r: Response) returns (next: Option<string>, events: seq<Event>)
      requires Valid()
      modifies this, storage, app
      ensures Valid()
      ensures old(app) != null ==> app == old(app)
      ensures app != null ==> app == old(app) || fresh(app)
      ensures next == NextTag(tag, r) && events == StepEvents(tag, r)
      ensures sent == old(sent) && storage.userName == old(storage.userName)
      ensures !r.Ok? ==> state == old(state) && app == old(app)
      ensures r.Ok? ==>
        state.Some? && state.value.talks.items == r.body &&
        state.value.user == if old(state).None? then user else old(state).value.user
    {
      next := tag;
      events := [Sent(PollHeaders(tag))];
      match r {
        case Failed =>
          events := events + [Slept(BackoffMs)];
        case NotModified =>
        case Ok(etag, body) =>
          next := etag;
          var parsed := new TalkList(body);
          Update(parsed);
          events := events + [Updated(body)];
      }
    }

    /** `pollTalks(update)` over a finite script of responses, starting with
        no tag. Each non-304 success hands a freshly parsed list to Update. */
    method PollTalks(script: seq<Response>) returns (log: seq<Event>)
      requires Valid()
      modifies this, storage, app
      ensures Valid()
      ensures old(app) != null ==> app == old(app)
      ensures app != null ==> app == old(app) || fresh(app)
      ensures log == Trace(None, script)
      ensures sent == old(sent) && storage.userName == old(storage.userName)
      ensures OkBodies(script) == [] ==> state == old(state) && app == old(app)
      ensures OkBodies(script) != [] ==>
        state.Some? && state.value.talks.items == OkBodies(script)[|OkBodies(script)| - 1] &&
        state.value.user == if old(state).None? then user else old(state).value.user
    {
      var tag: Option<string> := None;
      ghost var name := if state.None? then user else state.value.user;
      log := [];
      var i := 0;
      while i < |script|
        invariant 0 <= i <= |script|
        invariant Valid()
        invariant old(app) != null ==> app == old(app)
        invariant app != null ==> app == old(app) || fresh(app)
        invariant tag == TagAfter(None, script[..i])
        invariant log == Trace(None, script[..i])
        invariant sent == old(sent) && storage.userName == old(storage.userName)
        invariant LastOk(script[..i]).None? ==> state == old(state) && app == old(app)
        invariant LastOk(script[..i]).Some? ==>
          state.Some? && state.value.user == name && state.value.talks.items == LastOk(script[..i]).value
        decreases |script| - i
      {
        var r := script[i];
        ghost var done := script[..i];
        TraceSnoc(None, done, r);
        assert script[..i + 1] == done + [r];
        assert (done + [r])[..i] == done;
        var events;
        tag, events := PollOnce(tag, r);
        log := log + events;
        i := i + 1;
      }
      assert script[..i] == script;
      LastOkIsLastBody(script);
    }
  }

  /** After a first poll delivers an empty list, submitting a talk with a
      plain title (such as "Rust") issues exactly one request, a PUT to
      talks/{title} carrying the default presenter, and the state keeps its
      empty list until a later poll. */
  method NewTalkScenario(etag: string, title: string, summary: string)
    returns (sent: seq<Command>, talks: seq<Talk>)
    requires forall i | 0 <= i < |title| :: Uri.Unreserved(title[i])
    ensures sent == [Command(Put, "talks/" + title, Some(TalkSubmission("Anon", summary)))]
    ensures talks == []
  {
    var storage := new Storage(None);
    var client := new Client(storage);
    var script := [Ok(Some(etag), [])];
    assert OkBodies(script) == [[]];
    var _ := client.PollTalks(script);
    client.Dispatch(NewTalk(title, summary));
    TalkURLOfUnreserved(title);
    sent := client.sent;
    talks := client.state.value.talks.items;
  }
}
