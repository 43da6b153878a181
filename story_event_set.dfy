/** The older history engine: a story event set. Its events are kept in an array in
    which an event's ID is also its index; `next` links run from `startingIndex` to the
    end of the current timeline, and the cursor `currentIndex` is the event that the next
    recorded action follows. Document states are not stored per event: the set keeps the
    initial state and each event's diff, and a state is rebuilt by replaying diffs. */
module StoryEventSets {
  import opened Snapshot
  import opened Chains
  import opened StoryEvents

  /** The two flags of the host plugin that the set consults when a new state arrives. */
  class Host {
    var restoreInProgress: bool
    var waitingForCodapState: bool
  }

  /** A notification from the host: its resource, the operation it names and, for a
      `newDocumentState` operation, the document state it carries. */
  datatype Notification = Notification(resource: string, operation: string, state: Value)

  /** What `HandleNotification` reports back; `newEvent` is present only when an event
      was added. */
  datatype HandlerResult = HandlerResult(waiting: bool, doSetState: bool, newEvent: Option<StoryEventModel>)

  const UndoChangeNotice := "undoChangeNotice"
  const NewDocumentState := "newDocumentState"

  /** Every event's ID is its index, its `prev` is an earlier event or -1, and its `next`
      is a later event or -1. */
  ghost predicate Indexed(es: seq<Event>) {
    (forall i :: 0 <= i < |es| ==> es[i].ID == i && -1 <= es[i].prev < i) && NextAhead(es)
  }

  /** Every `next` is -1 or a later event, so following `next` ends. */
  ghost predicate NextAhead(es: seq<Event>) {
    forall i :: 0 <= i < |es| ==> es[i].next == -1 || i < es[i].next < |es|
  }

  /** The position of the first event whose ID is `iID`, or -1 when there is none. */
  function FindIndex(es: seq<Event>, iID: int): (r: int)
    ensures -1 <= r < |es|
    ensures r >= 0 ==> es[r].ID == iID
    ensures forall j :: 0 <= j < |es| && (r < 0 || j < r) ==> es[j].ID != iID
  {
    if es == [] then -1
    else if es[0].ID == iID then 0
    else
      var k := FindIndex(es[1..], iID);
      if k < 0 then -1 else k + 1
  }

  /** Where IDs are indexes, looking an ID up is indexing the array. */
  lemma FindIndexed(es: seq<Event>, iID: int)
    requires Indexed(es)
    ensures FindIndex(es, iID) == if 0 <= iID < |es| then iID else -1
  {
    if 0 <= iID < |es| {
      assert es[iID].ID == iID;
    }
  }

  /** The event that `find` returns for `iID`. */
  function Find(es: seq<Event>, iID: int): Option<Event> {
    var k := FindIndex(es, iID);
    if k < 0 then None else Some(es[k])
  }

  /** The events met by following `next` from `i` until a negative index. */
  ghost function ChainFrom(es: seq<Event>, i: int): (c: seq<int>)
    requires NextAhead(es) && i < |es|
    ensures forall k :: 0 <= k < |c| ==> 0 <= c[k] < |es|
    ensures i < 0 <==> c == []
    ensures c != [] ==> c[0] == i
    decreases if i < 0 then 0 else |es| - i
  {
    if i < 0 then [] else [i] + ChainFrom(es, es[i].next)
  }

  /** A chain starts where it is asked to, each of its events links to the one after
      it, and the last one links to -1. */
  lemma {:induction false} ChainLinks(es: seq<Event>, i: int, c: seq<int>)
    requires NextAhead(es) && i < |es| && c == ChainFrom(es, i)
    ensures c != [] ==> c[0] == i && es[c[|c| - 1]].next == -1
    ensures forall k :: 0 <= k < |c| - 1 ==> es[c[k]].next == c[k + 1]
    decreases if i < 0 then 0 else |es| - i
  {
    if i >= 0 {
      var t := es[i].next;
      var d := ChainFrom(es, t);
      ChainLinks(es, t, d);
      assert c == [i] + d;
      forall k | 0 <= k < |c| - 1
        ensures es[c[k]].next == c[k + 1]
      {
        if k > 0 {
          assert c[k] == d[k - 1] && c[k + 1] == d[k];
        }
      }
    }
  }

  /** One step of a walk along the chain `c`: the event at step `n` is the event with
      that ID, and its `next` is the following step, or negative at the last step. */
  lemma ChainStep(es: seq<Event>, i: int, c: seq<int>, n: nat)
    requires Indexed(es) && i < |es| && c == ChainFrom(es, i) && n < |c|
    ensures 0 <= c[n] < |es| && es[c[n]].ID == c[n]
    ensures es[c[n]].next == if n + 1 < |c| then c[n + 1] else -1
  {
    ChainLinks(es, i, c);
  }

  /** A chain visits strictly increasing indexes from its start on, so the walk ends and
      meets no event twice. */
  lemma {:induction false} ChainIncreasing(es: seq<Event>, i: int, c: seq<int>)
    requires NextAhead(es) && i < |es| && c == ChainFrom(es, i)
    ensures forall k :: 0 <= k < |c| ==> i <= c[k]
    ensures forall k, l :: 0 <= k < l < |c| ==> c[k] < c[l]
    decreases if i < 0 then 0 else |es| - i
  {
    if i >= 0 {
      var t := es[i].next;
      var d := ChainFrom(es, t);
      ChainIncreasing(es, t, d);
      assert c == [i] + d;
      assert t == -1 || i < t;
      forall k | 0 <= k < |c|
        ensures i <= c[k]
      {
        if k > 0 {
          assert c[k] == d[k - 1];
        }
      }
      forall k, l | 0 <= k < l < |c|
        ensures c[k] < c[l]
      {
        assert c[l] == d[l - 1];
        if k > 0 {
          assert c[k] == d[k - 1];
        }
      }
    }
  }

  /** The diffs of the events `ids`, in order. */
  function Diffs(es: seq<Event>, ids: seq<int>): (ds: seq<Diff>) {
    seq(|ids|, k requires 0 <= k < |ids| => if 0 <= ids[k] < |es| then es[ids[k]].codapStateDiff else [])
  }

  /** Replaying one more event of `c` applies that event's diff. */
  lemma ReplayStep(lib: DiffLib, s: Value, es: seq<Event>, c: seq<int>, n: nat)
    requires n < |c| && 0 <= c[n] < |es|
    ensures Replay(lib, s, Diffs(es, c[..n + 1])) == Apply(lib, Replay(lib, s, Diffs(es, c[..n])), es[c[n]].codapStateDiff)
  {
    var ds := Diffs(es, c[..n + 1]);
    assert ds[..n] == Diffs(es, c[..n]);
  }

  /** A walk over `c` that has met `x` only in its last step `n - 1`, or has reached the
      end without meeting it, has covered exactly the prefix through the first `x`. */
  lemma StopsAt(c: seq<int>, x: int, n: nat)
    requires n <= |c|
    requires forall k :: 0 <= k < n - 1 ==> c[k] != x
    requires (n > 0 && c[n - 1] == x) || (n == |c| && (n == 0 || c[n - 1] != x))
    ensures TakeThrough(c, x) == c[..n]
  {
    if n > 0 && c[n - 1] == x {
      var k := TakeThroughAt(c, x);
      assert k == n - 1;
    } else {
      assert c[..n] == c;
    }
  }

  /** The array after `addNewStoryEvent` pushes `e`: the cursor's event, if any, now
      links forward to the new index. */
  function Appended(es: seq<Event>, cur: int, e: Event): seq<Event>
    requires cur < |es|
  {
    (if cur >= 0 then es[cur := es[cur].(next := |es|)] else es) + [e]
  }

  /** Appending an event numbered `|es|` that links back to the cursor keeps IDs equal to
      indexes and every link pointing the right way. */
  lemma AppendIndexed(es: seq<Event>, cur: int, e: Event)
    requires Indexed(es) && -1 <= cur < |es|
    requires e.ID == |es| && e.prev == cur && e.next == -1
    ensures Indexed(Appended(es, cur, e))
  {
    var r := Appended(es, cur, e);
    forall i | 0 <= i < |r|
      ensures r[i].ID == i && -1 <= r[i].prev < i && (r[i].next == -1 || i < r[i].next < |r|)
    {
      if i < |es| && i != cur {
        assert r[i] == es[i];
      }
    }
  }

  /** `r` is `es` with the cursor's event linking to a new last event `|es|` that ends
      the chain; no other `next` changes. */
  ghost predicate Redirected(es: seq<Event>, r: seq<Event>, cur: int) {
    NextAhead(es) && NextAhead(r) && -1 <= cur < |es| && |r| == |es| + 1 &&
    (forall i :: 0 <= i < |es| && i != cur ==> r[i].next == es[i].next) &&
    (cur >= 0 ==> r[cur].next == |es|) && r[|es|].next == -1
  }

  /** A timeline from `s` that passes the cursor now runs to the cursor and then to the
      new event. */
  lemma {:induction false} RedirectHit(es: seq<Event>, r: seq<Event>, cur: int, s: int)
    requires Redirected(es, r, cur) && s < |es|
    requires cur in ChainFrom(es, s)
    ensures ChainFrom(r, s) == TakeThrough(ChainFrom(es, s), cur) + [|es|]
    decreases if s < 0 then 0 else |es| - s
  {
    var c := ChainFrom(es, s);
    if s == cur {
      assert ChainFrom(r, |es|) == [|es|];
      assert ChainFrom(r, s) == [s] + [|es|];
      assert c[0] == cur && TakeThrough(c, cur) == [cur];
    } else {
      var t := es[s].next;
      assert c == [s] + ChainFrom(es, t) && c[1..] == ChainFrom(es, t);
      assert ChainFrom(r, s) == [s] + ChainFrom(r, t);
      TakeThroughTail(c, cur);
      RedirectHit(es, r, cur, t);
      ConsSnoc(s, TakeThrough(c[1..], cur), |es|);
    }
  }

  lemma ConsSnoc(a: int, p: seq<int>, y: int)
    ensures [a] + (p + [y]) == ([a] + p) + [y]
  {
  }

  /** A timeline from `s` that does not pass the cursor is unchanged. */
  lemma {:induction false} RedirectMiss(es: seq<Event>, r: seq<Event>, cur: int, s: int)
    requires Redirected(es, r, cur) && s < |es|
    requires cur !in ChainFrom(es, s)
    ensures ChainFrom(r, s) == ChainFrom(es, s)
    decreases if s < 0 then 0 else |es| - s
  {
    if s >= 0 {
      var t := es[s].next;
      assert ChainFrom(es, s) == [s] + ChainFrom(es, t);
      assert ChainFrom(r, s) == [s] + ChainFrom(r, t);
      RedirectMiss(es, r, cur, t);
    }
  }

  /** The append changes no event's diff. */
  lemma AppendKeepsDiffs(es: seq<Event>, cur: int, e: Event)
    requires cur < |es|
    ensures forall i :: 0 <= i < |es| ==> Appended(es, cur, e)[i].codapStateDiff == es[i].codapStateDiff
  {
    var r := Appended(es, cur, e);
    forall i | 0 <= i < |es|
      ensures r[i].codapStateDiff == es[i].codapStateDiff
    {
      if i != cur {
        assert r[i] == es[i];
      }
    }
  }

  /** After the append, the timeline from `s` runs as before up to the cursor and then
      to the new event; a timeline that does not pass the cursor is unchanged. */
  lemma AppendChain(es: seq<Event>, cur: int, e: Event, s: int)
    requires Indexed(es) && -1 <= cur < |es| && s < |es|
    requires e.ID == |es| && e.prev == cur && e.next == -1
    ensures Indexed(Appended(es, cur, e))
    ensures cur in ChainFrom(es, s) ==>
      ChainFrom(Appended(es, cur, e), s) == TakeThrough(ChainFrom(es, s), cur) + [|es|]
    ensures cur !in ChainFrom(es, s) ==> ChainFrom(Appended(es, cur, e), s) == ChainFrom(es, s)
  {
    AppendIndexed(es, cur, e);
    var r := Appended(es, cur, e);
    assert Redirected(es, r, cur) by {
      forall i | 0 <= i < |es| && i != cur
        ensures r[i].next == es[i].next
      {
        assert r[i] == es[i];
      }
    }
    if cur in ChainFrom(es, s) {
      RedirectHit(es, r, cur, s);
    } else {
      RedirectMiss(es, r, cur, s);
    }
  }

  /** In a strictly increasing sequence, nothing above `c[k]` occurs up to position `k`. */
  lemma PrefixBelow(c: seq<int>, k: nat, x: int)
    requires forall i, j :: 0 <= i < j < |c| ==> c[i] < c[j]
    requires k < |c| && c[k] < x
    ensures x !in c[..k + 1]
  {
    forall j | 0 <= j <= k
      ensures c[j] != x
    {
      if j < k {
        assert c[j] < c[k];
      }
    }
  }

  /** After an append at a cursor inside the timeline, the events that followed the
      cursor drop out of the timeline; they stay in the array. */
  lemma AppendOrphans(es: seq<Event>, cur: int, e: Event, s: int)
    requires Indexed(es) && -1 <= cur < |es| && s < |es|
    requires e.ID == |es| && e.prev == cur && e.next == -1
    requires cur in ChainFrom(es, s)
    ensures Indexed(Appended(es, cur, e))
    ensures forall x :: x in ChainFrom(es, s) && cur < x ==>
      x !in ChainFrom(Appended(es, cur, e), s) && Appended(es, cur, e)[x] == es[x]
  {
    AppendChain(es, cur, e, s);
    var c := ChainFrom(es, s);
    ChainIncreasing(es, s, c);
    var k := TakeThroughAt(c, cur);
    forall x | x in c && cur < x
      ensures x !in ChainFrom(Appended(es, cur, e), s) && Appended(es, cur, e)[x] == es[x]
    {
      PrefixBelow(c, k, x);
    }
  }

  /** The loop of `getStateByStoryEventID`: from `initial`, walk the timeline from `start`,
      applying each event's diff where it applies, and stop after the event `iID` or at
      the end of the timeline. */
  method ReplayTimeline(lib: DiffLib, initial: Value, es: seq<Event>, start: int, iID: int)
    returns (tCodapState: Value)
    requires Indexed(es) && start < |es|
    ensures tCodapState == Replay(lib, initial, Diffs(es, TakeThrough(ChainFrom(es, start), iID)))
  {
    tCodapState := initial;
    ghost var c := ChainFrom(es, start);
    var tIndex, tDone := start, false;
    ghost var n := 0;
    while !tDone && tIndex >= 0
      invariant 0 <= n <= |c|
      invariant if n < |c| then tIndex == c[n] else tIndex < 0
      invariant tDone <==> n > 0 && c[n - 1] == iID
      invariant forall k :: 0 <= k < n - 1 ==> c[k] != iID
      invariant tCodapState == Replay(lib, initial, Diffs(es, c[..n]))
      decreases |c| - n
    {
      assert forall k :: 0 <= k < n ==> c[k] != iID;
      ChainStep(es, start, c, n);
      var tCurrentStoryEvent := es[tIndex];
      var tPatched := lib.patch(tCurrentStoryEvent.codapStateDiff, tCodapState);
      if tPatched.Some? {
        tCodapState := tPatched.value;
      }
      tDone := tCurrentStoryEvent.ID == iID;
      tIndex := tCurrentStoryEvent.next;
      ReplayStep(lib, initial, es, c, n);
      n := n + 1;
    }
    StopsAt(c, iID, n);
  }

  /** Setting one event's diff keeps IDs, links and every `next`. */
  lemma SetDiffKeeps(es: seq<Event>, k: int, d: Diff, r: seq<Event>)
    requires Indexed(es) && 0 <= k < |es| && r == es[k := es[k].(codapStateDiff := d)]
    ensures Indexed(r) && |r| == |es|
    ensures forall i :: 0 <= i < |es| ==> r[i].next == es[i].next
    ensures forall i :: 0 <= i < |es| && i != k ==> r[i] == es[i]
  {
    forall i | 0 <= i < |es|
      ensures r[i].ID == i && -1 <= r[i].prev < i && r[i].next == es[i].next
    {
      if i != k {
        assert r[i] == es[i];
      }
    }
  }

  /** The set's fields as one value. */
  datatype SetView = SetView(storyEvents: seq<Event>, currentIndex: int, startingIndex: int, focusIndex: int,
                             initialCodapState: Value, currentCodapState: Value,
                             restoreInProgress: bool, waitingForCodapState: bool)

  /** The fields after `addNewStoryEvent` at time `now`. */
  function Added(v: SetView, now: int): SetView
    requires v.currentIndex < |v.storyEvents|
  {
    var n := |v.storyEvents|;
    v.(storyEvents := Appended(v.storyEvents, v.currentIndex, Event(n, v.currentIndex, -1, [], Annotation(false, "", now, ""))),
       currentIndex := n)
  }

  /** The fields after `storeCodapState(s)`. */
  function Stored(lib: DiffLib, v: SetView, s: Value): SetView {
    if v.initialCodapState == Null then
      v.(initialCodapState := s, currentCodapState := s)
    else if v.restoreInProgress || !v.waitingForCodapState then
      v
    else
      var es, k := v.storyEvents, FindIndex(v.storyEvents, v.currentIndex);
      v.(waitingForCodapState := false,
         storyEvents := if k >= 0 then es[k := es[k].(codapStateDiff := lib.diff(v.currentCodapState, s))] else es,
         currentCodapState := s)
  }

  /** `storeCodapState` in its three cases: the first state becomes both the initial and
      the current state; while a restore runs or no state is awaited nothing changes;
      otherwise the awaited state is taken, the current event (if there is one) records
      the diff to it, and it becomes the current state. */
  lemma StoredCases(lib: DiffLib, v: SetView, s: Value)
    requires Indexed(v.storyEvents)
    ensures var r, es, cur := Stored(lib, v, s), v.storyEvents, v.currentIndex;
      (v.initialCodapState == Null ==>
        r == v.(initialCodapState := s, currentCodapState := s)) &&
      (v.initialCodapState != Null && (v.restoreInProgress || !v.waitingForCodapState) ==> r == v) &&
      (v.initialCodapState != Null && !v.restoreInProgress && v.waitingForCodapState ==>
        r.currentCodapState == s && !r.waitingForCodapState &&
        r.(storyEvents := es, currentCodapState := v.currentCodapState, waitingForCodapState := true) == v &&
        (0 <= cur < |es| ==>
           r.storyEvents == es[cur := es[cur].(codapStateDiff := lib.diff(v.currentCodapState, s))]) &&
        (!(0 <= cur < |es|) ==> r.storyEvents == es))
  {
    FindIndexed(v.storyEvents, v.currentIndex);
  }

  /** `storeCodapState` while a state is awaited and the cursor is an event: the diff
      to the new state goes into the cursor's event, and the new state becomes current. */
  lemma StoredAwaited(lib: DiffLib, v: SetView, s: Value, w: SetView)
    requires Indexed(v.storyEvents) && 0 <= v.currentIndex < |v.storyEvents|
    requires v.initialCodapState != Null && !v.restoreInProgress && v.waitingForCodapState
    requires w == Stored(lib, v, s)
    ensures w.storyEvents == v.storyEvents[v.currentIndex := v.storyEvents[v.currentIndex].(codapStateDiff := lib.diff(v.currentCodapState, s))]
    ensures w.currentIndex == v.currentIndex && w.startingIndex == v.startingIndex
    ensures w.initialCodapState == v.initialCodapState && w.currentCodapState == s && !w.waitingForCodapState
  {
    FindIndexed(v.storyEvents, v.currentIndex);
  }

  /** Under the diff library's contract, the diff stored in the current event takes the
      previous current state to the new one. */
  lemma StoredRecordsStep(lib: DiffLib, v: SetView, s: Value)
    requires RoundTrips(lib) && Indexed(v.storyEvents)
    requires v.initialCodapState != Null && !v.restoreInProgress && v.waitingForCodapState
    requires 0 <= v.currentIndex < |v.storyEvents|
    ensures var r := Stored(lib, v, s);
      lib.patch(r.storyEvents[v.currentIndex].codapStateDiff, v.currentCodapState) == Some(r.currentCodapState)
  {
    StoredCases(lib, v, s);
  }

  /** The `created` gap, in milliseconds, under which two events count as one burst. */
  const CollapseWindow := 100

  /** Whether `next` follows the current event `now` closely enough to be collapsed
      into it; never for a missing event or the first event of a timeline. */
  function CheckForCollapse(now: Option<Event>, next: Event): bool {
    if now.None? || now.value.prev < 0 then false
    else next.annotation.created - now.value.annotation.created < CollapseWindow
  }

  /** Only the start event, at index 0, has no predecessor. */
  ghost predicate StartOnly(es: seq<Event>) {
    forall i :: 0 <= i < |es| ==> (es[i].prev < 0 <==> i == 0)
  }

  /** Recording an action after an event keeps the start event the only one without a
      predecessor; so does the first action recorded in an empty array. */
  lemma AddedKeepsStart(v: SetView, now: int)
    requires Indexed(v.storyEvents) && StartOnly(v.storyEvents) && v.currentIndex < |v.storyEvents|
    requires v.currentIndex >= 0 || v.storyEvents == []
    ensures StartOnly(Added(v, now).storyEvents)
  {
    var es, r := v.storyEvents, Added(v, now).storyEvents;
    forall i | 0 <= i < |r|
      ensures r[i].prev < 0 <==> i == 0
    {
      if i < |es| {
        assert r[i].prev == es[i].prev;
      }
    }
  }

  /** In a set whose only event without a predecessor is the start event, the collapse
      test on the cursor's event holds exactly when the cursor names an event other than
      the start and the new event came less than `CollapseWindow` milliseconds after it. */
  lemma CollapseExactly(es: seq<Event>, cur: int, next: Event)
    requires Indexed(es) && StartOnly(es)
    ensures CheckForCollapse(Find(es, cur), next) <==>
      0 < cur < |es| && next.annotation.created - es[cur].annotation.created < CollapseWindow
  {
    FindIndexed(es, cur);
  }

  class StoryEventSet {
    var storyEvents: seq<Event>
    var currentIndex: int
    var startingIndex: int
    var focusIndex: int
    const parent: Host
    /** The diff library the set records and replays with. */
    const lib: DiffLib

    var initialCodapState: Value
    var currentCodapState: Value

    /** IDs are indexes, links point the right way, and the cursor is never below -1. */
    ghost predicate Valid()
      reads this
    {
      Indexed(storyEvents) && -1 <= currentIndex
    }

    function View(): SetView
      reads this, parent
    {
      SetView(storyEvents, currentIndex, startingIndex, focusIndex, initialCodapState, currentCodapState,
              parent.restoreInProgress, parent.waitingForCodapState)
    }

    /** A set with no document state yet, holding only the "start" event created at `now`. */
    constructor (iParent: Host, lib: DiffLib, now: int)
      ensures Valid()
      ensures storyEvents == [Event(0, -1, -1, [], Annotation(true, "", now, ""))]
      ensures currentIndex == 0 && startingIndex == 0 && focusIndex == 0
      ensures initialCodapState == Null && currentCodapState == Null
      ensures parent == iParent && this.lib == lib
    {
      storyEvents, currentIndex, startingIndex, focusIndex := [], -1, -1, -1;
      initialCodapState, currentCodapState := Null, Null;
      parent := iParent;
      this.lib := lib;
      new;
      InitializeToCodapState(Null, now);
    }

    /** Start over from `iState`, holding only the "start" event created at `now`. */
    method InitializeToCodapState(iState: Value, now: int)
      requires Valid()
      modifies this
      ensures Valid()
      ensures initialCodapState == iState && currentCodapState == old(currentCodapState)
      ensures storyEvents == [Event(0, -1, -1, [], Annotation(true, "", now, ""))]
      ensures currentIndex == 0 && startingIndex == 0 && focusIndex == 0
    {
      initialCodapState := iState;
      SetInitialStoryEvent(now);
    }

    function Length(): nat
      reads this
    {
      |storyEvents|
    }

    method SetCurrentIndex(i: int)
      modifies this`currentIndex
      ensures currentIndex >= 0
      ensures i >= 0 ==> currentIndex == i
      ensures i < 0 ==> currentIndex == 0
      ensures old(Valid()) ==> Valid()
    {
      var j := i;
      if j < 0 {
        j := 0;
      }
      currentIndex := j;
    }

    method SetFocusIndex(i: int)
      modifies this`focusIndex
      ensures focusIndex == i
    {
      focusIndex := i;
    }

    method SetStartingIndex(i: int)
      modifies this`startingIndex
      ensures startingIndex >= 0
      ensures i >= 0 ==> startingIndex == i
      ensures i < 0 ==> startingIndex == 0
    {
      var j := i;
      if j < 0 {
        j := 0;
      }
      startingIndex := j;
    }

    /** Empty the set and create the "start" event at `now`, a marker that is the
        starting, current and focus event. */
    method SetInitialStoryEvent(now: int)
      requires Valid()
      modifies this
      ensures Valid()
      ensures storyEvents == [Event(0, -1, -1, [], Annotation(true, "", now, ""))]
      ensures currentIndex == 0 && startingIndex == 0 && focusIndex == 0
      ensures initialCodapState == old(initialCodapState) && currentCodapState == old(currentCodapState)
    {
      storyEvents := [];
      currentIndex := -1;
      var tEvent := AddNewStoryEvent(now);
      startingIndex := tEvent.ID;
      focusIndex := tEvent.ID;
      tEvent.SetMarker(true);
      // the array holds `tEvent` itself, so the entry follows the object
      storyEvents := storyEvents[tEvent.ID := tEvent.Record()];
    }

    /** The first event whose ID is `iID`, or None if there is none. */
    function StoryEventByStoryEventID(iID: int): (r: Option<Event>)
      reads this
      ensures r.Some? ==> r.value in storyEvents && r.value.ID == iID
      ensures r.None? <==> forall i :: 0 <= i < |storyEvents| ==> storyEvents[i].ID != iID
    {
      Find(storyEvents, iID)
    }

    function FocusStoryEvent(): Option<Event>
      reads this
    {
      StoryEventByStoryEventID(focusIndex)
    }

    function CurrentStoryEvent(): Option<Event>
      reads this
    {
      StoryEventByStoryEventID(currentIndex)
    }

    /** Record a new action at time `now`: a fresh event numbered after the last one,
        linked back to the cursor and forward from it, becomes the cursor. The source
        writes through `storyEvents[currentIndex]`, so the cursor must be an event or -1. */
    method AddNewStoryEvent(now: int) returns (tNextEvent: StoryEventModel)
      requires Valid() && currentIndex < |storyEvents|
      modifies this
      ensures Valid() && fresh(tNextEvent)
      ensures storyEvents == Appended(old(storyEvents), old(currentIndex), tNextEvent.Record())
      ensures tNextEvent.Record() == Event(old(|storyEvents|), old(currentIndex), -1, [], Annotation(false, "", now, ""))
      ensures currentIndex == old(|storyEvents|)
      ensures startingIndex == old(startingIndex) && focusIndex == old(focusIndex)
      ensures initialCodapState == old(initialCodapState) && currentCodapState == old(currentCodapState)
    {
      tNextEvent := new StoryEventModel(now);
      var tCurrentEvent := CurrentStoryEvent();
      var tCollapse := CheckForCollapse(tCurrentEvent, tNextEvent.Record());
      var newEventIndex := |storyEvents|;
      tNextEvent.ID := newEventIndex;
      tNextEvent.prev := currentIndex;
      var es := storyEvents;
      if currentIndex >= 0 {
        es := es[currentIndex := es[currentIndex].(next := newEventIndex)];
      }
      AppendIndexed(storyEvents, currentIndex, tNextEvent.Record());
      storyEvents, currentIndex := es + [tNextEvent.Record()], newEventIndex;
    }

    /** The events of the current timeline, from the starting event along `next`. The
        source reads `storyEvents[startingIndex]`, so the start must be an event or negative. */
    method StoryEventsOnThisTimeline() returns (out: seq<Event>)
      requires Valid() && startingIndex < |storyEvents|
      ensures |out| == |ChainFrom(storyEvents, startingIndex)|
      ensures forall k :: 0 <= k < |out| ==> out[k] == storyEvents[ChainFrom(storyEvents, startingIndex)[k]]
    {
      ghost var c := ChainFrom(storyEvents, startingIndex);
      out := [];
      var xSE := startingIndex;
      ghost var n := 0;
      while xSE >= 0
        invariant 0 <= n <= |c| && |out| == n
        invariant if n < |c| then xSE == c[n] else xSE < 0
        invariant forall k :: 0 <= k < n ==> out[k] == storyEvents[c[k]]
        decreases |c| - n
      {
        ChainStep(storyEvents, startingIndex, c, n);
        var nextEvent := storyEvents[xSE];
        out := out + [nextEvent];
        xSE := nextEvent.next;
        n := n + 1;
      }
    }

    /** Take a document state reported by the host. */
    method StoreCodapState(iCodapState: Value)
      requires Valid()
      modifies this, parent
      ensures Valid()
      ensures View() == Stored(lib, old(View()), iCodapState)
    {
      if initialCodapState == Null {
        initialCodapState := iCodapState;
      } else if parent.restoreInProgress || !parent.waitingForCodapState {
        return;
      } else {
        parent.waitingForCodapState := false;
        var k := FindIndex(storyEvents, currentIndex);
        if k >= 0 {
          storyEvents := storyEvents[k := storyEvents[k].(codapStateDiff := lib.diff(currentCodapState, iCodapState))];
        }
      }
      currentCodapState := iCodapState;
    }

    /** The document state just after event `iID`: Null when there is no such event;
        otherwise the initial state with the diffs of the timeline replayed in order
        through `iID` (through the whole timeline when `iID` is not on it), each diff
        that does not apply being skipped. */
    method GetStateByStoryEventID(iID: int) returns (tCodapState: Value)
      requires Valid()
      requires 0 <= iID < |storyEvents| ==> startingIndex < |storyEvents|
      ensures !(0 <= iID < |storyEvents|) ==> tCodapState == Null
      ensures 0 <= iID < |storyEvents| ==>
        tCodapState == Replay(lib, initialCodapState,
                              Diffs(storyEvents, TakeThrough(ChainFrom(storyEvents, startingIndex), iID)))
    {
      tCodapState := Null;
      var tStoryEvent := StoryEventByStoryEventID(iID);
      FindIndexed(storyEvents, iID);
      if tStoryEvent.Some? {
        tCodapState := ReplayTimeline(lib, initialCodapState, storyEvents, startingIndex, iID);
      }
    }

    /** Dispatch a host notification: an undo notice changes nothing; a new document
        state is stored; anything else is a user action, recorded as a new event at `now`. */
    method HandleNotification(iCommand: Notification, now: int) returns (handlerResult: HandlerResult)
      requires Valid()
      requires iCommand.resource != UndoChangeNotice && iCommand.operation != NewDocumentState ==>
        currentIndex < |storyEvents|
      modifies this, parent
      ensures Valid()
      ensures iCommand.resource == UndoChangeNotice ==>
        View() == old(View()) && handlerResult == HandlerResult(false, false, None)
      ensures iCommand.resource != UndoChangeNotice && iCommand.operation == NewDocumentState ==>
        View() == Stored(lib, old(View()), iCommand.state) && handlerResult == HandlerResult(false, false, None)
      ensures iCommand.resource != UndoChangeNotice && iCommand.operation != NewDocumentState ==>
        View() == Added(old(View()), now) &&
        handlerResult.waiting && handlerResult.doSetState && handlerResult.newEvent.Some? &&
        fresh(handlerResult.newEvent.value) &&
        handlerResult.newEvent.value.Record() == storyEvents[|storyEvents| - 1]
    {
      handlerResult := HandlerResult(false, false, None);
      if iCommand.resource != UndoChangeNotice {
        if iCommand.operation == NewDocumentState {
          StoreCodapState(iCommand.state);
        } else {
          var tEvent := AddNewStoryEvent(now);
          handlerResult := handlerResult.(waiting := true, doSetState := true, newEvent := Some(tEvent));
        }
      }
    }
  }
}
