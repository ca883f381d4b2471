/** The values the client keeps about the shared list of talks. */
module Talks {

  datatype Comment = Comment(author: string, message: string)

  datatype Talk = Talk(title: string, presenter: string, summary: string, comments: seq<Comment>)

  /** A list of talks as the client holds it: the array that one parsed
      response body produced. It is an object with identity, so the lists
      parsed from two responses are two lists even when their contents are
      equal, and the view's cache compares lists by identity. */
  class TalkList {
    const items: seq<Talk>

    constructor (items: seq<Talk>)
      ensures this.items == items
    {
      this.items := items;
    }
  }

  /** The application state: the display name and the last list of talks. */
  datatype AppState = AppState(user: string, talks: TalkList)
}
