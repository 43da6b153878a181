/** The ghost bookkeeping behind a timeline: the array of moments as values, where each
    one sits, its links by ID, and the invariant that ties them together. Kept apart from
    the timeline's operations so that the invariant is read as one fact where it is used. */
module TimelineLayout {
  import opened Moments
  import opened Relinking

  /** A moment as the timeline's array holds it: every stored field, and the two links. */
  datatype Entry = Entry(data: MomentStorage, prev: int, next: int) {
    function ID(): int { data.ID }
  }

  /** `index` finds every entry of `ms` by its ID, all IDs are below `bound`, and the
      tables hold the entries' links. */
  ghost predicate Arena(ms: seq<Entry>, index: map<int, nat>, next: map<int, int>, prev: map<int, int>, bound: int) {
    (forall id {:trigger index[id]} :: id in index ==>
      index[id] < |ms| && ms[index[id]].ID() == id && id in next && id in prev &&
      ms[index[id]].next == next[id] && ms[index[id]].prev == prev[id]) &&
    (forall i :: 0 <= i < |ms| ==> ms[i].ID() in index && index[ms[i].ID()] == i && ms[i].ID() < bound)
  }

  /** The ghost bookkeeping of a timeline: the array position of every moment by ID, each
      moment's `next` and `prev` by ID, and an order on the IDs (below `posBound`) in which
      `next` links go forward and `prev` links backward, the witness that the list ends. */
  datatype Layout = Layout(index: map<int, nat>, next: map<int, int>, prev: map<int, int>,
                           pos: map<int, nat>, posBound: nat)

  /** The links a layout records, with the given head and cursor. */
  function LinksOf(g: Layout, head: int, cursor: int): Links {
    Links(g.next, g.prev, head, cursor)
  }

  /** The timeline's invariant on values: `g` finds each entry by ID; IDs lie below the
      counter, so a new ID is never one in use; the tables hold the entries' links, which
      form no cycle; the head and the cursor are below the counter too. */
  ghost predicate Consistent(ms: seq<Entry>, g: Layout, head: int, cursor: int, counter: int) {
    0 <= counter && head < counter && cursor < counter && Arena(ms, g.index, g.next, g.prev, counter) &&
    g.next.Keys == g.index.Keys && Ordered(LinksOf(g, head, cursor), g.pos, g.posBound)
  }
}
