/** One recorded user action of the older history engine, a story event: the diff from
    the document state before it to the state after it, its links in the story event
    set (where its ID is also its array index), and its label and narrative. */
module StoryEvents {
  import opened Snapshot

  /** An event's fields as a value: the story event set keeps its events in this form. */
  datatype Event = Event(ID: int, prev: int, next: int, codapStateDiff: Diff, annotation: Annotation)

  /** The fields of an event that the history engine only carries along. */
  datatype Annotation = Annotation(isMarker: bool, title: string, created: int, narrative: string)

  class StoryEventModel {
    var ID: int
    var prev: int
    var next: int
    /** Empty until the host reports the document state that follows the action. */
    var codapStateDiff: Diff
    var isMarker: bool
    var title: string
    /** Creation time, in milliseconds. */
    var created: int
    var narrative: string

    /** A fresh, unlinked event created at time `now`. The source's constructor ignores
        the notification it is given, so nothing else is taken from it. */
    constructor (now: int)
      ensures ID == -1 && prev == -1 && next == -1
      ensures codapStateDiff == [] && !isMarker && title == "" && narrative == ""
      ensures created == now
    {
      ID, prev, next := -1, -1, -1;
      codapStateDiff := [];
      isMarker := false;
      title := "";
      created := now;
      narrative := "";
    }

    /** The event's current fields. */
    function Record(): Event
      reads this
    {
      Event(ID, prev, next, codapStateDiff, Annotation(isMarker, title, created, narrative))
    }

    method SetTitle(iTitle: string)
      modifies this`title
      ensures title == iTitle
    {
      title := iTitle;
    }

    method SetMarker(iMarker: bool)
      modifies this`isMarker
      ensures isMarker == iMarker
    {
      isMarker := iMarker;
    }

    method SetNarrative(iText: string)
      modifies this`narrative
      ensures narrative == iText
    {
      narrative := iText;
    }
  }
}
