/** What replaying a story event set promises: the state rebuilt for the current event
    is the current document state. The set's recording protocol (an action adds an event
    with an empty diff, and the document state that follows is stored as that event's
    diff) keeps this true from the first stored state on. */
module StoryReplay {
  import opened Snapshot
  import opened Chains
  import opened StoryEvents
  import opened StoryEventSets

  /** The state `getStateByStoryEventID` rebuilds for event `iID`. */
  ghost function StateAt(lib: DiffLib, v: SetView, iID: int): Value
    requires NextAhead(v.storyEvents) && v.startingIndex < |v.storyEvents|
  {
    Replay(lib, v.initialCodapState,
           Diffs(v.storyEvents, TakeThrough(ChainFrom(v.storyEvents, v.startingIndex), iID)))
  }

  /** The cursor is on the timeline, and replaying the timeline through it yields the
      current document state. */
  ghost predicate ReplaysToCurrent(lib: DiffLib, v: SetView) {
    Indexed(v.storyEvents) && 0 <= v.startingIndex < |v.storyEvents| &&
    v.currentIndex in ChainFrom(v.storyEvents, v.startingIndex) &&
    StateAt(lib, v, v.currentIndex) == v.currentCodapState
  }

  /** Timelines depend on `next` links only. */
  lemma {:induction false} SameLinksSameChain(es: seq<Event>, r: seq<Event>, s: int)
    requires NextAhead(es) && NextAhead(r) && |r| == |es| && s < |es|
    requires forall i :: 0 <= i < |es| ==> r[i].next == es[i].next
    ensures ChainFrom(r, s) == ChainFrom(es, s)
    decreases if s < 0 then 0 else |es| - s
  {
    if s >= 0 {
      SameLinksSameChain(es, r, es[s].next);
    }
  }

  /** The prefix through `x` of a sequence that ends in its only `x` is all of it. */
  lemma TakeThroughLast(p: seq<int>, x: int)
    requires x !in p
    ensures TakeThrough(p + [x], x) == p + [x]
  {
    var s := p + [x];
    var r := TakeThrough(s, x);
    assert r == s[..|r|];
    assert s[|r| - 1] == x;
  }

  /** The diffs along `p + [x]` in `r` are those along `p` in `es` followed by `x`'s,
      when `r` extends `es` keeping every diff. */
  lemma DiffsSnoc(es: seq<Event>, r: seq<Event>, p: seq<int>, x: int)
    requires |es| <= |r| && forall k :: 0 <= k < |p| ==> 0 <= p[k] < |es|
    requires forall i :: 0 <= i < |es| ==> r[i].codapStateDiff == es[i].codapStateDiff
    requires 0 <= x < |r|
    ensures Diffs(r, p + [x]) == Diffs(es, p) + [r[x].codapStateDiff]
  {
  }

  /** Replaying one more diff applies it last. */
  lemma ReplaySnoc(lib: DiffLib, s: Value, ds: seq<Diff>, d: Diff)
    ensures Replay(lib, s, ds + [d]) == Apply(lib, Replay(lib, s, ds), d)
  {
    assert (ds + [d])[..|ds|] == ds;
  }

  /** After an append at the cursor, the timeline through the new event is the old one
      through the cursor, `p`, then the new event; the events of `p` keep their diffs. */
  lemma AddedTimeline(v: SetView, now: int, a: SetView, p: seq<int>)
    requires Indexed(v.storyEvents) && 0 <= v.startingIndex < |v.storyEvents|
    requires v.currentIndex in ChainFrom(v.storyEvents, v.startingIndex)
    requires a == Added(v, now) && p == TakeThrough(ChainFrom(v.storyEvents, v.startingIndex), v.currentIndex)
    ensures Indexed(a.storyEvents) && |a.storyEvents| == |v.storyEvents| + 1
    ensures a.currentIndex == |v.storyEvents| && a.startingIndex == v.startingIndex
    ensures a.initialCodapState == v.initialCodapState && a.currentCodapState == v.currentCodapState
    ensures a.restoreInProgress == v.restoreInProgress && a.waitingForCodapState == v.waitingForCodapState
    ensures ChainFrom(a.storyEvents, v.startingIndex) == p + [|v.storyEvents|]
    ensures TakeThrough(p + [|v.storyEvents|], |v.storyEvents|) == p + [|v.storyEvents|]
    ensures forall k :: 0 <= k < |p| ==> 0 <= p[k] < |v.storyEvents|
    ensures forall i :: 0 <= i < |v.storyEvents| ==> a.storyEvents[i].codapStateDiff == v.storyEvents[i].codapStateDiff
  {
    var es, cur, n := v.storyEvents, v.currentIndex, |v.storyEvents|;
    var c := ChainFrom(es, v.startingIndex);
    var e := Event(n, cur, -1, [], Annotation(false, "", now, ""));
    AppendChain(es, cur, e, v.startingIndex);
    AppendKeepsDiffs(es, cur, e);
    assert forall k :: 0 <= k < |p| ==> p[k] == c[k] && 0 <= p[k] < n;
    TakeThroughLast(p, n);
  }

  /** A recorded action keeps replay in step with the current state, given that the
      empty diff of its new event changes nothing. */
  lemma AddedReplays(lib: DiffLib, v: SetView, now: int)
    requires EmptyIsIdentity(lib) && ReplaysToCurrent(lib, v)
    ensures ReplaysToCurrent(lib, Added(v, now))
  {
    var a, n := Added(v, now), |v.storyEvents|;
    var p := TakeThrough(ChainFrom(v.storyEvents, v.startingIndex), v.currentIndex);
    AddedTimeline(v, now, a, p);
    DiffsSnoc(v.storyEvents, a.storyEvents, p, n);
    ReplaySnoc(lib, v.initialCodapState, Diffs(v.storyEvents, p), []);
  }

  /** The state reported after an action is stored in the action's new event, and the
      timeline and every other diff stay as the action left them. */
  lemma StoredAfterAdded(lib: DiffLib, v: SetView, now: int, s: Value, w: SetView, p: seq<int>)
    requires Indexed(v.storyEvents) && 0 <= v.startingIndex < |v.storyEvents|
    requires v.currentIndex in ChainFrom(v.storyEvents, v.startingIndex)
    requires v.initialCodapState != Null && !v.restoreInProgress && v.waitingForCodapState
    requires w == Stored(lib, Added(v, now), s)
    requires p == TakeThrough(ChainFrom(v.storyEvents, v.startingIndex), v.currentIndex)
    ensures Indexed(w.storyEvents) && |w.storyEvents| == |v.storyEvents| + 1
    ensures w.currentIndex == |v.storyEvents| && w.currentCodapState == s
    ensures w.initialCodapState == v.initialCodapState && w.startingIndex == v.startingIndex
    ensures ChainFrom(w.storyEvents, v.startingIndex) == p + [|v.storyEvents|]
    ensures w.storyEvents[|v.storyEvents|].codapStateDiff == lib.diff(v.currentCodapState, s)
    ensures forall k :: 0 <= k < |p| ==> 0 <= p[k] < |v.storyEvents|
    ensures forall i :: 0 <= i < |v.storyEvents| ==> w.storyEvents[i].codapStateDiff == v.storyEvents[i].codapStateDiff
  {
    var a, n := Added(v, now), |v.storyEvents|;
    AddedTimeline(v, now, a, p);
    StoredAwaited(lib, a, s, w);
    SetDiffKeeps(a.storyEvents, n, lib.diff(v.currentCodapState, s), w.storyEvents);
    SameLinksSameChain(a.storyEvents, w.storyEvents, v.startingIndex);
  }

  /** The recording protocol: an action recorded as a new event, followed by the
      document state the host then reports while the set awaits it, leaves replay
      through the new event equal to that state. */
  lemma ActionThenStateReplays(lib: DiffLib, v: SetView, now: int, s: Value)
    requires RoundTrips(lib) && ReplaysToCurrent(lib, v)
    requires v.initialCodapState != Null && !v.restoreInProgress && v.waitingForCodapState
    ensures var w := Stored(lib, Added(v, now), s);
      ReplaysToCurrent(lib, w) && w.currentIndex == |v.storyEvents| && w.currentCodapState == s
  {
    var w, n := Stored(lib, Added(v, now), s), |v.storyEvents|;
    var p := TakeThrough(ChainFrom(v.storyEvents, v.startingIndex), v.currentIndex);
    StoredAfterAdded(lib, v, now, s, w, p);
    TakeThroughLast(p, n);
    DiffsSnoc(v.storyEvents, w.storyEvents, p, n);
    ReplaySnoc(lib, v.initialCodapState, Diffs(v.storyEvents, p), lib.diff(v.currentCodapState, s));
  }

  /** While the host leaves its waiting flag down, an action followed by the state the
      host reports records nothing: the state is dropped, the set stays as the action
      left it, and replay through the new event still yields the state before the action. */
  lemma UnawaitedStateIgnored(lib: DiffLib, v: SetView, now: int, s: Value)
    requires EmptyIsIdentity(lib) && ReplaysToCurrent(lib, v)
    requires v.initialCodapState != Null && !v.waitingForCodapState
    ensures var w := Stored(lib, Added(v, now), s);
      w == Added(v, now) && ReplaysToCurrent(lib, w) && w.currentCodapState == v.currentCodapState
  {
    AddedReplays(lib, v, now);
  }

  /** The first state the host reports becomes the initial state of a set that holds only
      its "start" event, and replay through that event yields it. */
  lemma FirstStateReplays(lib: DiffLib, v: SetView, s: Value)
    requires EmptyIsIdentity(lib)
    requires |v.storyEvents| == 1 && Indexed(v.storyEvents) && v.storyEvents[0].codapStateDiff == []
    requires v.currentIndex == 0 && v.startingIndex == 0 && v.initialCodapState == Null
    ensures ReplaysToCurrent(lib, Stored(lib, v, s))
  {
    var w := Stored(lib, v, s);
    assert ChainFrom(w.storyEvents, 0) == [0] + ChainFrom(w.storyEvents, -1);
    assert TakeThrough([0], 0) == [0];
    assert Diffs(w.storyEvents, [0]) == [] + [[]];
    ReplaySnoc(lib, s, [], []);
  }
}
