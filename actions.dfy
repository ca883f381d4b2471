/** The action reducer `handleAction` and its URL helper `talkURL`
    (client.js, section "Actions"). The reducer is a pure function returning
    the next state and the one request, if any, that the action issues; the
    method HandleAction performs its only other effect, the storage write. */
module Actions {
  import opened Wrappers
  import opened Uri
  import opened Talks

  /** An action tag the reducer does not recognise. */
  type OtherTag = t: string
    | t != "setUser" && t != "setTalks" && t != "newTalk" && t != "deleteTalk" && t != "newComment"
    witness ""

  datatype Action =
    | SetUser(user: string)
    | SetTalks(talks: TalkList)
    | NewTalk(title: string, summary: string)
    | DeleteTalk(talk: string)
    | NewComment(talk: string, message: string)
    | Other(tag: OtherTag)

  datatype Method = Put | Delete | Post

  /** The JSON object a request carries (sent with Content-Type: application/json). */
  datatype Payload =
    | TalkSubmission(presenter: string, summary: string)
    | CommentSubmission(author: string, message: string)

  /** One fire-and-forget request to the server. */
  datatype Command = Command(verb: Method, url: string, payload: Option<Payload>)

  /** The result of reducing one action. */
  datatype Outcome = Outcome(state: AppState, request: Option<Command>)

  /** The browser's persistent storage, reduced to its one key "userName". */
  class Storage {
    var userName: Option<string>

    constructor (stored: Option<string>)
      ensures userName == stored
    {
      userName := stored;
    }
  }

  /** The '/'-separated segments of a path, as `split("/")` gives them. */
  function Segments(p: string): (r: seq<string>)
    ensures |r| >= 1
  {
    if p == [] then [""]
    else if p[0] == '/' then [""] + Segments(p[1..])
    else
      var tail := Segments(p[1..]);
      [[p[0]] + tail[0]] + tail[1..]
  }

  lemma {:induction false} SegmentsOfPlain(x: string, rest: string)
    requires '/' !in x
    ensures Segments(x + rest) == [x + Segments(rest)[0]] + Segments(rest)[1..]
  {
    if x != [] {
      assert (x + rest)[1..] == x[1..] + rest;
      SegmentsOfPlain(x[1..], rest);
      assert [x[0]] + (x[1..] + Segments(rest)[0]) == x + Segments(rest)[0];
    } else {
      assert x + rest == rest;
      assert x + Segments(rest)[0] == Segments(rest)[0];
      assert Segments(rest) == [Segments(rest)[0]] + Segments(rest)[1..];
    }
  }

  /** A path without '/' is one segment. */
  lemma SegmentsOfSegment(x: string)
    requires '/' !in x
    ensures Segments(x) == [x]
  {
    SegmentsOfPlain(x, "");
    assert x + "" == x;
  }

  /** Joining a segment to a path with '/' puts it in front of the path's segments. */
  lemma SegmentsOfJoin(x: string, rest: string)
    requires '/' !in x
    ensures Segments(x + "/" + rest) == [x] + Segments(rest)
  {
    var slashed := "/" + rest;
    assert x + "/" + rest == x + slashed;
    SegmentsOfPlain(x, slashed);
    assert slashed[0] == '/' && slashed[1..] == rest;
    assert x + "" == x;
  }

  /** `talkURL(title)`: the path of a talk, relative to the page. The title
      becomes exactly one path segment, and the server gets it back by
      decoding that segment. */
  function TalkURL(title: string): (r: string)
    ensures |r| >= 6 && r[..6] == "talks/"
    ensures '/' !in r[6..]
    ensures Decode(r[6..]) == Some(title)
  {
    DecodeEncode(title);
    var e := EncodeURIComponent(title);
    assert ("talks/" + e)[6..] == e;
    "talks/" + e
  }

  /** `handleAction(state, action)`. SetUser and SetTalks replace one field
      and issue nothing; NewTalk, DeleteTalk and NewComment leave the state
      as it is and issue exactly one request; any other tag does nothing. */
  function Reduce(s: AppState, a: Action): (r: Outcome)
    ensures r.request.Some? <==> a.NewTalk? || a.DeleteTalk? || a.NewComment?
    ensures a.SetUser? ==> r.state.user == a.user && r.state.talks == s.talks
    ensures a.SetTalks? ==> r.state.talks == a.talks && r.state.user == s.user
    ensures !a.SetUser? && !a.SetTalks? ==> r.state == s
    ensures a.NewTalk? ==>
      r.request == Some(Command(Put, TalkURL(a.title), Some(TalkSubmission(s.user, a.summary))))
    ensures a.DeleteTalk? ==> r.request == Some(Command(Delete, TalkURL(a.talk), None))
    ensures a.NewComment? ==>
      r.request == Some(Command(Post, TalkURL(a.talk) + "/comments", Some(CommentSubmission(s.user, a.message))))
  {
    match a
    case SetUser(u) => Outcome(s.(user := u), None)
    case SetTalks(ts) => Outcome(s.(talks := ts), None)
    case NewTalk(title, summary) =>
      Outcome(s, Some(Command(Put, TalkURL(title), Some(TalkSubmission(s.user, summary)))))
    case DeleteTalk(talk) => Outcome(s, Some(Command(Delete, TalkURL(talk), None)))
    case NewComment(talk, message) =>
      Outcome(s, Some(Command(Post, TalkURL(talk) + "/comments", Some(CommentSubmission(s.user, message)))))
    case Other(_) => Outcome(s, None)
  }

  /** `handleAction` with its storage write: only SetUser touches storage. */
  method HandleAction(storage: Storage, s: AppState, a: Action) returns (next: AppState, request: Option<Command>)
    modifies storage
    ensures Outcome(next, request) == Reduce(s, a)
    ensures storage.userName == if a.SetUser? then Some(a.user) else old(storage.userName)
  {
    if a.SetUser? {
      storage.userName := Some(a.user);
    }
    var r := Reduce(s, a);
    next, request := r.state, r.request;
  }

  /** Reducing an action a second time changes nothing more: SetTalks with
      the same list, like SetUser with the same name, is a no-op diff. */
  lemma ReduceIdempotent(s: AppState, a: Action)
    ensures Reduce(Reduce(s, a).state, a).state == Reduce(s, a).state
  {
  }

  // ---- What the server makes of the requests (the HTTP surface it offers).

  datatype Route =
    | SubmitTalk(title: string, presenter: string, summary: string)
    | RemoveTalk(title: string)
    | AddComment(title: string, author: string, message: string)

  /** The server's reading of a request: PUT and DELETE on talks/{title},
      POST on talks/{title}/comments, the title being the decoded segment. */
  function ServerRoute(c: Command): Option<Route> {
    var seg := Segments(c.url);
    if |seg| < 2 || seg[0] != "talks" then None
    else
      match Decode(seg[1])
      case None => None
      case Some(title) =>
        if |seg| == 2 then
          match (c.verb, c.payload)
          case (Put, Some(TalkSubmission(p, sm))) => Some(SubmitTalk(title, p, sm))
          case (Delete, None) => Some(RemoveTalk(title))
          case _ => None
        else if |seg| == 3 && seg[2] == "comments" then
          match (c.verb, c.payload)
          case (Post, Some(CommentSubmission(au, m))) => Some(AddComment(title, au, m))
          case _ => None
        else None
  }

  lemma SegmentsOfTwo(x: string, y: string)
    requires '/' !in x && '/' !in y
    ensures Segments(x + "/" + y) == [x, y]
  {
    SegmentsOfSegment(y);
    SegmentsOfJoin(x, y);
  }

  lemma SegmentsOfThree(x: string, y: string, z: string)
    requires '/' !in x && '/' !in y && '/' !in z
    ensures Segments(x + "/" + y + "/" + z) == [x, y, z]
  {
    SegmentsOfTwo(y, z);
    assert x + "/" + y + "/" + z == x + "/" + (y + "/" + z);
    SegmentsOfJoin(x, y + "/" + z);
  }

  lemma TalkURLShape(title: string)
    ensures TalkURL(title) == "talks" + "/" + EncodeURIComponent(title)
  {
  }

  /** A talk's path is two segments, the second the encoded title. */
  lemma TalkURLSegments(title: string)
    ensures Segments(TalkURL(title)) == ["talks", EncodeURIComponent(title)]
  {
    TalkURLShape(title);
    SegmentsOfTwo("talks", EncodeURIComponent(title));
  }

  lemma CommentsPathSegments(u: string, e: string)
    requires u == "talks" + "/" + e && '/' !in e
    ensures Segments(u + "/comments") == ["talks", e, "comments"]
  {
    assert u + "/comments" == "talks" + "/" + e + "/" + "comments";
    SegmentsOfThree("talks", e, "comments");
  }

  /** The path a comment is posted to is three segments, whatever the title. */
  lemma CommentsURLSegments(talk: string)
    ensures Segments(TalkURL(talk) + "/comments") == ["talks", EncodeURIComponent(talk), "comments"]
  {
    TalkURLShape(talk);
    CommentsPathSegments(TalkURL(talk), EncodeURIComponent(talk));
  }

  /** A title of unreserved characters appears in its path as it is. */
  lemma TalkURLOfUnreserved(title: string)
    requires forall i | 0 <= i < |title| :: Unreserved(title[i])
    ensures TalkURL(title) == "talks/" + title
  {
    EncodeUnreserved(title);
  }

  lemma SubmitTalkRoute(title: string, presenter: string, summary: string)
    ensures ServerRoute(Command(Put, TalkURL(title), Some(TalkSubmission(presenter, summary))))
      == Some(SubmitTalk(title, presenter, summary))
  {
    TalkURLSegments(title);
    DecodeEncode(title);
  }

  lemma RemoveTalkRoute(title: string)
    ensures ServerRoute(Command(Delete, TalkURL(title), None)) == Some(RemoveTalk(title))
  {
    TalkURLSegments(title);
    DecodeEncode(title);
  }

  lemma AddCommentRoute(title: string, author: string, message: string)
    ensures ServerRoute(Command(Post, TalkURL(title) + "/comments", Some(CommentSubmission(author, message))))
      == Some(AddComment(title, author, message))
  {
    CommentsURLSegments(title);
    DecodeEncode(title);
  }

  /** Every request the reducer issues reaches the talk the action names,
      whatever its title (slashes, spaces, non-ASCII), and carries the
      current user as presenter or author. */
  lemma {:induction false} RequestReachesNamedTalk(s: AppState, a: Action)
    ensures a.NewTalk? ==>
      ServerRoute(Reduce(s, a).request.value) == Some(SubmitTalk(a.title, s.user, a.summary))
    ensures a.DeleteTalk? ==> ServerRoute(Reduce(s, a).request.value) == Some(RemoveTalk(a.talk))
    ensures a.NewComment? ==>
      ServerRoute(Reduce(s, a).request.value) == Some(AddComment(a.talk, s.user, a.message))
  {
    match a
    case NewTalk(title, summary) => SubmitTalkRoute(title, s.user, summary);
    case DeleteTalk(talk) => RemoveTalkRoute(talk);
    case NewComment(talk, message) => AddCommentRoute(talk, s.user, message);
    case _ =>
  }

  /** Deleting a talk whose title is plain (such as "Rust") issues DELETE
      talks/{title} with the title as it is, and leaves the state, which
      still lists the talk, exactly as it was. */
  lemma DeletePlainTitle(s: AppState, title: string)
    requires forall i | 0 <= i < |title| :: Unreserved(title[i])
    ensures Reduce(s, DeleteTalk(title)) == Outcome(s, Some(Command(Delete, "talks/" + title, None)))
  {
    TalkURLOfUnreserved(title);
  }
}
