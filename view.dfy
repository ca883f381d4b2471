/** The part of `SkillShareApp` (client.js, section "The Application") that
    decides whether the talk list is rendered again: the cached list
    `this.talks`, compared by identity with the state's list. The DOM nodes
    are reduced to the sequence of talks rendered into the talk container. */
module View {
  import opened Talks

  class SkillShareApp {
    /** `this.talks`: the list last rendered; null stands for `undefined`. */
    var talks: TalkList?
    /** The talks rendered into `talkDOM`, in order. */
    var shown: seq<Talk>
    /** Whether the last `syncState` rebuilt the talk container. */
    var rerendered: bool

    /** The container shows exactly the cached list. */
    ghost predicate Valid()
      reads this
    {
      talks != null && shown == talks.items
    }

    /** The constructor renders the initial state, the cache being empty. */
    constructor (state: AppState)
      ensures Valid() && talks == state.talks && rerendered
    {
      talks := null;
      shown := [];
      rerendered := false;
      new;
      SyncState(state);
    }

    /** `syncState(state)`: re-render only when the state's list is another
        list than the cached one, then cache it. */
    method SyncState(state: AppState)
      modifies this
      ensures talks == state.talks
      ensures rerendered == (old(talks) != state.talks)
      ensures shown == if rerendered then state.talks.items else old(shown)
      ensures old(Valid()) ==> Valid()
      ensures old(talks) == null ==> Valid()
    {
      if state.talks != talks {
        var items := state.talks.items;
        shown := [];
        for i := 0 to |items|
          invariant shown == items[..i]
        {
          shown := shown + [items[i]];
        }
        talks := state.talks;
        rerendered := true;
      } else {
        rerendered := false;
      }
    }
  }
}
