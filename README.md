# History engine of the Data Stories plugin

The Data Stories plugin records what a user does to a CODAP document. It keeps a
history that the user can scrub through with a cursor. The history exists in two
generations, and this project models both as Dafny code and proves properties of each.

- **Timeline** (`timeline.dfy`, class `Timelines.Timeline`) is the newer history.
  - Every moment ever made stays in the array `moments`.
  - The history itself is a doubly linked list through each moment's `prev` and `next`.
    Links are moment IDs, and -1 means "none".
  - `startingID` is the head of the list and `currentID` is the cursor.
  - New IDs come from the counter `nextMomentID`, which only ever goes up.
  - A ghost `layout` records where each ID sits and the ID tables of the links. It also
    holds an order in which every `next` link goes forward and every `prev` link goes
    back, which proves that walking the list ends. The layout and the invariant that
    ties it to the array are in `timeline_layout.dfy`.
  - `relinking.dfy` states what inserting and deleting do to the links, as pure
    functions over ID tables. The class methods are proved to change the links exactly
    as those functions say.
  - `chains.dfy` holds the theory of walks along `next` links.
- **Moment** (`moment.dfy`, class `Moments.Moment`) is one recorded point of the
  timeline. It has single-field setters, a storage record round trip and its text
  rendering.
- **StoryEventSet** (`story_event_set.dfy`, class `StoryEventSets.StoryEventSet`) is the
  older history.
  - Events live in an array in which an event's ID is its index.
  - Recording an action appends an event after the cursor. This cuts off any events
    that followed the cursor.
  - A document state reported by the host is stored as the diff from the previous state.
    Two flags of the host gate this.
  - A state is rebuilt by replaying diffs along the timeline from the initial state.
  - `story_replay.dfy` proves the recording protocol correct, provided the host raises
    its `waitingForCodapState` flag after each action: after an action and the state the
    host then reports, replay through the new event yields that state. The host in
    `src/dataStories.tsx` never raises the flag, because the line that would do so
    (`src/dataStories.tsx:95`) is commented out. With the flag down, every state after
    the first is dropped; `StoryReplay.UnawaitedStateIgnored` proves this.
- **StoryEventModel** (`story_event.dfy`) is one event of the older history.
- **Snapshot** (`snapshot.dfy`) holds document states, the abstract JSON diff library,
  and the replay fold.

Operations that change objects in place are class methods. Each method's `modifies`
clause names what it may change, and its `ensures` clauses state the new state. Loops
are `while` loops with invariants. Lookups and predicates are functions.

The code has no `modified` timestamp. It does not merge rapid events: the result of
`checkForCollapse` is only logged, at src/story-event-set.tsx:63-64. It does not
serialise a whole timeline. The model follows the code.

## Model

| member | source | states |
|---|---|---|
| Snapshot.Apply | src/story-event-set.tsx:175-177 | a replay step yields the patched state when the diff applies, and keeps the state when the patch fails |
| Snapshot.ReplayRecorded | src/story-event-set.tsx:147-151 | if the diff library round-trips, replaying the diffs recorded between consecutive states rebuilds the last state |
| Snapshot.ReplayEmptyDiffs | src/story-event-set.tsx:54-58 | events whose diff is still empty leave the replayed state unchanged, if the empty diff is the identity |
| Moments.Moment.constructor | src/moment.tsx:11-26 | a fresh moment has ID, prev and next -1, holds the given state, is titled "moment", is not a marker, has an empty narrative and is created at the given time |
| Moments.Moment.RestoreFromStorage | src/moment.tsx:39-47 | afterwards the moment's storage record is exactly the given record; only the six stored fields may change |
| Moments.StorageRoundTrip | src/moment.tsx:28-47 | restoring a moment from its own storage record leaves every field of it unchanged, including the creation time to the millisecond |
| Moments.Moment.SetCodapState | src/moment.tsx:53-55 | sets the document state and may change no other field |
| Moments.Moment.SetTitle | src/moment.tsx:57-59 | sets the title and may change no other field |
| Moments.Moment.SetMarker | src/moment.tsx:61-63 | sets the marker flag and may change no other field |
| Moments.Moment.SetNarrative | src/moment.tsx:65-67 | sets the narrative and may change no other field |
| Moments.Moment.ExtractNarrative | src/moment.tsx:72-74 | for a plain narrative, the text is the tag "(txt) " followed by the narrative, which can be read back from it |
| Moments.IntTextInjective | src/moment.tsx:50 | different integers have different decimal texts, as a template string writes them |
| Moments.ToStringIdentifiesMoment | src/moment.tsx:49-51 | two moments with different IDs have different texts |
| Timelines.MarkerTitlesDistinct | src/timeline.tsx:163 | different IDs give different marker titles |
| Timelines.FindByID | src/timeline.tsx:83-87 | the array search gives the first position with the ID, or -1 exactly when no moment has it |
| Timelines.Timeline.constructor | src/timeline.tsx:6-19 | a new timeline is empty, with head and cursor -1, the counter at 0 and no document states |
| Timelines.Timeline.SetCurrentID | src/timeline.tsx:25-29 | the cursor becomes the argument, unclamped; nothing else may change |
| Timelines.Timeline.SetStartingID | src/timeline.tsx:31-34 | the head becomes the argument, unclamped; nothing else may change |
| Timelines.Timeline.MomentByID | src/timeline.tsx:83-87 | the lookup finds a moment with the ID, and finds none exactly when no moment in the array has it |
| Timelines.Timeline.LookupAt | src/timeline.tsx:83-87 | on a sound timeline a lookup succeeds exactly for IDs in use, and finds the moment at that ID's position |
| Timelines.Timeline.CurrentMoment | src/timeline.tsx:89-91 | the moment under the cursor, and none exactly when no moment has the cursor's ID |
| Timelines.Timeline.OnMomentClick | src/timeline.tsx:45-55 | for an ID that names a moment, returns that moment, moves the cursor to it and makes its state the current state; no link changes |
| Relinking.InsertAfterIDInserts | src/timeline.tsx:103-114 | inserting after an existing ID keeps the links ordered and the head anchored, puts the new moment into the list right after that ID and nowhere else, and keeps a symmetric list symmetric |
| Relinking.InsertAfterMissingID | src/timeline.tsx:115-119 | inserting after a missing ID makes the new moment, unlinked, the head and the whole list |
| Timelines.LinkMoment | src/timeline.tsx:103-120 | on the entries, the links change exactly as the pure insert says, no entry's data changes, and the timeline stays consistent |
| Timelines.Timeline.InsertMomentAfterID | src/timeline.tsx:103-120 | the links change exactly as the pure insert says; the list gains the moment right after the predecessor, or becomes that moment alone; the array keeps its length and every moment's data |
| Relinking.DeleteKeepsOrder | src/timeline.tsx:57-67 | deleting as written or as intended keeps the links ordered and the head -1 or an ID in use |
| Relinking.DeleteRemoves | src/timeline.tsx:57-67 | on a symmetric list, both deletes remove exactly the deleted moment from the walk, and only the intended delete keeps the list symmetric |
| Relinking.DeleteMovesPrev | src/timeline.tsx:57-67 | the intended delete differs from the as-written one only in the successor's prev |
| Timelines.UnlinkAsWritten | src/timeline.tsx:57-67 | on the entries, the links change exactly as the as-written delete says; with a predecessor, that predecessor becomes the cursor; otherwise the successor becomes head and cursor |
| Timelines.Timeline.DeleteMomentByIDAsWritten | src/timeline.tsx:57-67 | the links change exactly as the as-written delete says; on a symmetric list the moment leaves the walk; the array is not shrunk |
| Timelines.Unlink | src/timeline.tsx:57-67 | on the entries, the links change exactly as the intended delete says |
| Timelines.Timeline.DeleteMomentByIDCorrected | src/timeline.tsx:57-67 | the corrected delete: the links change exactly as the intended delete says; on a symmetric list the moment leaves the walk and the list stays symmetric; the array is not shrunk |
| Timelines.Timeline.DeleteCurrentMoment | src/timeline.tsx:69-73 | deletes the moment under the cursor with the as-written delete: the links change exactly as DeleteAsWritten says, leaving the successor's prev stale; on a symmetric list the moment leaves the walk |
| Timelines.Timeline.DeleteCurrentMomentCorrected | src/timeline.tsx:69-73 | the corrected delete of the moment under the cursor: the links change exactly as the intended delete says, and a symmetric list stays symmetric |
| Timelines.CollectChain | src/timeline.tsx:127-138 | the traversal loop ends and collects, in order, the entries for the IDs met by following `next` from the head |
| Timelines.Timeline.GatheredByID | src/timeline.tsx:127-138 | each collected entry is the moment a lookup by its ID finds |
| Timelines.Timeline.MomentsOnThisTimeline | src/timeline.tsx:127-138 | the result has one moment per ID of the walk from the head, in order, and is empty when the head is negative |
| Timelines.AddMarker | src/timeline.tsx:152-160 | the new entry takes the counter's ID, which was not in use; it is appended and linked right after the cursor, or becomes the whole list when the cursor names no moment; other entries keep their data |
| Timelines.FirstMarker | src/timeline.tsx:147-160 | on the first capture the array starts empty, and the new entry is the only moment and the whole list |
| Timelines.MarkerStep | src/timeline.tsx:146-160 | the first capture blanks the array and records the initial state; then the marker is added as AddMarker says |
| Timelines.Timeline.RecordMarker | src/timeline.tsx:146-160 | the timeline's part of a new marker: the counter goes up by exactly one, the new ID becomes the cursor, and the link tables become MarkerLinks of the old ones: the new moment's prev is the old cursor, its next the cursor's old next, and the neighbours' links are rewritten as in the insert |
| Relinking.MarkerLinksWalk | src/timeline.tsx:146-160 | after a new marker's link writes, the list is the old list with the new ID right after the cursor when the cursor names a moment, a symmetric list staying symmetric; on the first capture, or when the cursor names no moment, the list is the new moment alone, and symmetric |
| Relinking.MarkerFirst | src/timeline.tsx:147-160 | the first capture's tables hold one moment with no links, and its list is that moment alone |
| Relinking.MarkerAfterCursor | src/timeline.tsx:103-114 | a new unlinked moment inserted after a listed cursor lands right after it in the list, and a symmetric list stays symmetric |
| Relinking.MarkerAlone | src/timeline.tsx:115-119 | a new unlinked moment inserted after a cursor that names no moment becomes the whole list, and that list is symmetric |
| Timelines.Timeline.MakeMarkerOnDemand | src/timeline.tsx:146-166 | the new moment gets the old counter value, an ID never used before, and the counter goes up by one; on the first capture, when no initial state is recorded, the array is blanked and the state becomes the initial one; the state becomes current; exactly one moment is appended and made the cursor, a marker with its title and prompt; the link tables become MarkerLinks of the old ones (the insert after the old cursor, also when the cursor names a deleted moment), whose list MarkerLinksWalk describes; the returned object's prev and next are the tables' links for its ID, and the object agrees with the stored entry |
| Timelines.DataKeeps | src/timeline.tsx:175-178 | changing one moment's stored fields keeps the timeline consistent and every lookup's answer |
| Timelines.Timeline.SetNewNarrative | src/timeline.tsx:175-178 | only the current moment's narrative changes; every other lookup and every link are unchanged |
| StaleLink.StaleLinkExample | src/timeline.tsx:57-67 | for the list 0, 1, 2, deleting 1 and then 2 as written leaves 2 on the list and the cursor on the deleted 1; the intended delete leaves 0 alone with the cursor on it |
| StoryEvents.StoryEventModel.constructor | src/story-event.tsx:5-17 | a fresh event has ID, prev and next -1, an empty diff, no marker, an empty title and narrative, and the given creation time |
| StoryEvents.StoryEventModel.SetTitle | src/story-event.tsx:19-22 | sets the title and may change no other field |
| StoryEvents.StoryEventModel.SetMarker | src/story-event.tsx:24-27 | sets the marker flag and may change no other field |
| StoryEvents.StoryEventModel.SetNarrative | src/story-event.tsx:29-31 | sets the narrative and may change no other field |
| StoryEventSets.FindIndex | src/story-event-set.tsx:95-99 | the first position holding the ID, or -1 exactly when no event has it |
| StoryEventSets.FindIndexed | src/story-event-set.tsx:66-67 | where IDs equal indexes, looking up an ID is indexing the array, and IDs outside the array are not found |
| StoryEventSets.StoryEventSet.StoryEventByStoryEventID | src/story-event-set.tsx:95-99 | finds an event with the ID, and finds none exactly when no event has it |
| StoryEventSets.ChainLinks | src/story-event-set.tsx:113-122 | the walk from an event starts there, each step follows `next`, and the last event's `next` is -1 |
| StoryEventSets.ChainIncreasing | src/story-event-set.tsx:113-122 | the walk visits strictly increasing indexes, so it ends and meets no event twice |
| StoryEventSets.AppendIndexed | src/story-event-set.tsx:59-78 | appending keeps every ID equal to its index, every prev earlier and every next later |
| StoryEventSets.AppendChain | src/story-event-set.tsx:68-75 | after the append, a timeline that passes the cursor runs as before up to the cursor and then to the new event; any other timeline is unchanged |
| StoryEventSets.AppendOrphans | src/story-event-set.tsx:68-74 | the events that followed the cursor drop out of the timeline but stay unchanged in the array |
| StoryEventSets.ReplayTimeline | src/story-event-set.tsx:165-181 | the replay loop yields the initial state with the diffs of the timeline applied in order through the target, or through the whole timeline when the target is not on it; diffs that do not apply are skipped |
| StoryEventSets.StoredCases | src/story-event-set.tsx:133-145 | the first state becomes initial and current; during a restore or when no state is awaited nothing changes; otherwise the waiting flag clears, the cursor's event gets the diff to the new state, and the new state becomes current |
| StoryEventSets.StoredAwaited | src/story-event-set.tsx:138-144 | with an awaited state and the cursor on an event, that event's diff becomes the diff to the new state and nothing else changes but the state and the flag |
| StoryEventSets.StoredRecordsStep | src/story-event-set.tsx:142 | if the library round-trips, the diff stored in the cursor's event patches the old current state into the new one |
| StoryEventSets.AddedKeepsStart | src/story-event-set.tsx:59-78 | recording an action after an event, or the first action into an empty array, keeps the start event the only event with no predecessor |
| StoryEventSets.CollapseExactly | src/story-event-set.tsx:80-85 | where only the start event lacks a predecessor, the collapse test on the cursor's event holds exactly when the cursor names an event other than the start and the new event came less than 100 ms after it |
| StoryEventSets.StoryEventSet.constructor | src/story-event-set.tsx:15-18 | a new set has no document state and holds only the "start" event 0, a marker that is the starting, current and focus event |
| StoryEventSets.StoryEventSet.InitializeToCodapState | src/story-event-set.tsx:20-23 | the initial state becomes the argument, and the set holds only a new "start" event |
| StoryEventSets.StoryEventSet.SetCurrentIndex | src/story-event-set.tsx:27-30 | a negative argument becomes 0 and any other is stored unchanged; the set stays valid |
| StoryEventSets.StoryEventSet.SetFocusIndex | src/story-event-set.tsx:32-34 | the focus becomes the argument, unclamped |
| StoryEventSets.StoryEventSet.SetStartingIndex | src/story-event-set.tsx:36-39 | a negative argument becomes 0 and any other is stored unchanged |
| StoryEventSets.StoryEventSet.SetInitialStoryEvent | src/story-event-set.tsx:45-52 | exactly one event remains, with ID 0, no links, an empty diff and the marker set; cursor, start and focus are all 0; the states are kept |
| StoryEventSets.StoryEventSet.AddNewStoryEvent | src/story-event-set.tsx:59-78 | the array grows by one event whose ID is the old length and whose prev is the old cursor; the old cursor's event links to it; it becomes the cursor; nothing else changes |
| StoryEventSets.StoryEventSet.StoryEventsOnThisTimeline | src/story-event-set.tsx:113-122 | the events met by following `next` from the starting event until -1, in order |
| StoryEventSets.StoryEventSet.StoreCodapState | src/story-event-set.tsx:133-145 | the set and the host's flags change exactly as the three cases of StoredCases say |
| StoryEventSets.StoryEventSet.GetStateByStoryEventID | src/story-event-set.tsx:152-183 | Null for an ID with no event; otherwise the state ReplayTimeline's contract gives for that ID |
| StoryEventSets.StoryEventSet.HandleNotification | src/story-event-set.tsx:185-217 | an undo notice changes nothing and reports not waiting; a new document state is only stored; any other notification adds exactly one event, reports waiting and set-state, and returns the new event |
| StoryReplay.FirstStateReplays | src/story-event-set.tsx:134-135 | for a fresh set, the first reported state becomes the initial state, and replay through the start event yields it |
| StoryReplay.AddedReplays | src/story-event-set.tsx:207-211 | recording an action keeps replay through the cursor equal to the current state, since the new event's diff is still empty |
| StoryReplay.StoredAfterAdded | src/story-event-set.tsx:204-212 | after an action and the awaited state, the timeline through the new event is the old one through the cursor plus the new event, and the new event holds the diff to the reported state |
| StoryReplay.ActionThenStateReplays | src/story-event-set.tsx:195-202 | if the library round-trips and the host awaits the state, an action followed by the state the host reports leaves replay through the new event equal to that state |
| StoryReplay.UnawaitedStateIgnored | src/story-event-set.tsx:133-137 | with the host's waiting flag down, an action followed by a reported state records nothing: the set is as the action left it, and replay through the new event still yields the state before the action |

## Left out

- The React components `MomentView` and `StoryEvent`, and all of `dataStories.tsx`.
  Only the host's two flags `restoreInProgress` and `waitingForCodapState` are kept,
  as the class `StoryEventSets.Host`.
- The JSON diff library is not modelled. `diff` and `patch` are function values, and
  a failed patch, which the library throws, is a `None`. The `window.alert`,
  `debugger` and `console.log` calls are dropped.
- Dates are integer milliseconds supplied by the caller. JavaScript numbers are
  modelled as unbounded integers, with no 2^53 limit.
- The rich-document branch of `extractNarrative` is left out. Narratives are plain
  strings.
- `getCurrentID`, `getCurrentIndex`, `length`, `isMoment`, `focusStoryEvent` and
  `currentStoryEvent` are thin accessors. They appear as functions or are folded into
  the lookups, without contracts of their own.
- Moments and events are values inside the arrays, so object aliasing is not modelled.
  - Timelines.Timeline.MakeMarkerOnDemand returns a fresh object whose fields equal the
    stored entry. Later writes through that object do not reach the array.
  - StoryEventSets.StoryEventSet.AddNewStoryEvent returns the event object, and the
    array holds its record. `SetInitialStoryEvent` copies the marker flag into the
    array explicitly.
- Timelines.Timeline.InsertMomentAfterID takes the moment by its array position. It
  requires the moment to be in no list and not to be its own predecessor. The source's
  only caller passes a moment it has just created.
- Timelines.Timeline.DeleteMomentByIDAsWritten, DeleteMomentByIDCorrected,
  DeleteCurrentMoment and DeleteCurrentMomentCorrected require the ID to name a moment.
  For any other ID the source dereferences `undefined`.
- Timelines.Timeline.OnMomentClick requires the ID to name a moment. For any other ID
  the source's `isMoment` reads a field of `undefined` and throws. The source returns
  `null` only for a moment whose state is `undefined`, which a `Value` cannot be, so
  the model has no such case.
- Timelines.Timeline.SetCurrentID and Timelines.Timeline.SetStartingID accept any
  integer, as the source does, but every other timeline method requires `Valid()`,
  which asks the head and the cursor to lie below `nextMomentID`, and the head to be -1
  or an ID still in the array. After either setter is given an ID not yet issued, or
  an ID no longer in the array, the model promises nothing. In the source, such a
  cursor makes the next `makeMarkerOnDemand` link its new moment after itself, and a
  later traversal loops forever. The first capture blanks the array
  (src/timeline.tsx:147-150) without resetting `startingID`, so a head given an ID
  from before it names no moment, and `momentsOnThisTimeline` (src/timeline.tsx:131-136)
  then loops forever too. No caller in src/dataStories.tsx passes such an ID.
- Timelines.Timeline.MomentsOnThisTimeline requires a valid timeline: every `next` names
  a moment and the links form no cycle. Otherwise the source loops forever.
- StoryEventSets.StoryEventSet.AddNewStoryEvent requires the cursor to be -1 or an
  event. Otherwise the source writes through `undefined`, and
  HandleNotification inherits this for actions.
- StoryEventSets.StoryEventSet.StoryEventsOnThisTimeline and GetStateByStoryEventID
  require the starting index to be below the array's length. Otherwise the source
  reads a field of `undefined`.
- The notification is reduced to its resource, its operation and the state it carries.
  The handler's `newEvent` field, absent in the source when no event is added, is
  `None`.
- The collapse test is computed when an event is added. As in the source, its result
  is not used, because the source only logs it. `StoryEventSets.CheckForCollapse` has
  no contract of its own; `CollapseExactly` states what it decides. Its hypothesis
  `StartOnly` is not part of `StoryEventSet.Valid()`. It holds for every set the class
  builds: the constructor, `InitializeToCodapState` and `SetInitialStoryEvent` leave
  only the start event, `AddNewStoryEvent` performs `Added`, which keeps `StartOnly` by
  `AddedKeepsStart`, and `StoreCodapState` changes no link.
- The host in `src/dataStories.tsx` never sets `waitingForCodapState`; the assignment
  at `src/dataStories.tsx:95` is commented out. The model keeps the flag as a field
  that the caller sets. The replay lemmas assume the flag is raised after each action.
  `UnawaitedStateIgnored` covers the host as written.
- The constructor of `StoryEventSet` sets its parent before it builds the start event,
  where the source does so after. The start event never reads the parent.

## Findings

| source | as written | input that shows it | evidently intended | confidence | as-written member | corrected member |
|---|---|---|---|---|---|---|
| src/timeline.tsx:57-67 | the delete links the predecessor past the deleted moment but leaves the successor's `prev` pointing at the deleted moment | on the list 0, 1, 2, delete 1 and then 2: the second delete follows 2's stale `prev` to the deleted 1, so 2 stays on the list and the cursor lands on the deleted 1 | the successor's `prev` moves to the predecessor, so the second delete leaves 0 alone with the cursor on 0 | high (not executed) | Timelines.Timeline.DeleteMomentByIDAsWritten, Timelines.Timeline.DeleteCurrentMoment, StaleLink.StaleLinkExample | Timelines.Timeline.DeleteMomentByIDCorrected, Timelines.Timeline.DeleteCurrentMomentCorrected |
