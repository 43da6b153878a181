/** The newer history engine: a timeline of moments. Every moment ever made stays in the
    array `moments`; the timeline proper is the list linked through the moments' `next`
    and `prev` IDs, starting at `startingID`, with `currentID` as the cursor. IDs come
    from the counter `nextMomentID` and are never reused. */
module Timelines {
  import opened Snapshot
  import opened Chains
  import opened Relinking
  import opened Moments
  import opened TimelineLayout

  /** The title a new marker gets: the first moment is the start, the others say their ID. */
  function MarkerTitle(id: int): string {
    if id == 0 then "start\ncomienzo" else "Moment " + IntText(id)
  }

  /** The initial state after capturing `s`: the first capture sets it, later ones keep it. */
  function Captured(initial: Value, s: Value): Value
  {
    if initial == Null then s else initial
  }

  /** The narrative a new marker is given as a prompt. */
  const MarkerNarrative: string := "What did you do? Why did you do it?\n¿Qué hizo? ¿Por qué?"

  /** Marker titles tell moments apart: different IDs give different titles. */
  lemma MarkerTitlesDistinct(i: int, j: int)
    requires i != j
    ensures MarkerTitle(i) != MarkerTitle(j)
  {
    if i != 0 && j != 0 {
      IntTextInjective(i, j);
      assert MarkerTitle(i)[7..] == IntText(i) && MarkerTitle(j)[7..] == IntText(j);
    } else {
      assert MarkerTitle(i)[0] != MarkerTitle(j)[0];
    }
  }

  /** The moment object `makeMarkerOnDemand` hands back: fresh, holding `iCodapState`
      created at `now`, with the ID `id`, marked, titled and given the prompt, and with
      the links `prev` and `next`. */
  method NewMarker(iCodapState: Value, now: int, id: int, prev: int, next: int) returns (m: Moment)
    ensures fresh(m) && m.prev == prev && m.next == next
    ensures m.CreateStorage() == MomentStorage(id, iCodapState, true, MarkerTitle(id), now, MarkerNarrative)
  {
    m := new Moment(iCodapState, now);
    m.ID := id;
    m.SetMarker(true);
    m.title, m.narrative := MarkerTitle(id), MarkerNarrative;
    m.prev, m.next := prev, next;
  }

  /** The position of the first entry in `ms` with ID `id`, or -1 if there is none: the
      array search behind every lookup by ID. */
  function FindByID(ms: seq<Entry>, id: int): (k: int)
    ensures -1 <= k < |ms|
    ensures k >= 0 ==> ms[k].ID() == id && forall j {:trigger ms[j].ID()} :: 0 <= j < k ==> ms[j].ID() != id
    ensures k < 0 ==> forall j :: 0 <= j < |ms| ==> ms[j].ID() != id
    decreases |ms|
  {
    if ms == [] then -1
    else if ms[0].ID() == id then 0
    else
      var k := FindByID(ms[1..], id);
      if k < 0 then -1 else k + 1
  }

  /** Replacing an entry by one with the same ID changes no search's answer. */
  lemma {:induction false} FindAfterSet(ms: seq<Entry>, k: nat, e: Entry, id: int)
    requires k < |ms| && e.ID() == ms[k].ID()
    ensures FindByID(ms[k := e], id) == FindByID(ms, id)
    decreases |ms|
  {
    if ms[0].ID() != id && k > 0 {
      assert ms[k := e][1..] == ms[1..][k - 1 := e];
      FindAfterSet(ms[1..], k - 1, e, id);
    }
  }

  /** Setting the `next` of entry `i` and its table entry together keeps the arena. */
  lemma SetNextKeeps(ms: seq<Entry>, index: map<int, nat>, next: map<int, int>, prev: map<int, int>, bound: int, i: nat, v: int)
    requires Arena(ms, index, next, prev, bound) && i < |ms|
    ensures Arena(ms[i := ms[i].(next := v)], index, next[ms[i].ID() := v], prev, bound)
  {
    var ms' := ms[i := ms[i].(next := v)];
    forall id | id in index
      ensures index[id] < |ms'| && ms'[index[id]].ID() == id && id in next[ms[i].ID() := v] && id in prev &&
        ms'[index[id]].next == next[ms[i].ID() := v][id] && ms'[index[id]].prev == prev[id]
    {
      if index[id] == i {
        assert id == ms[i].ID();
      }
    }
  }

  /** Setting the `prev` of entry `i` and its table entry together keeps the arena. */
  lemma SetPrevKeeps(ms: seq<Entry>, index: map<int, nat>, next: map<int, int>, prev: map<int, int>, bound: int, i: nat, v: int)
    requires Arena(ms, index, next, prev, bound) && i < |ms|
    ensures Arena(ms[i := ms[i].(prev := v)], index, next, prev[ms[i].ID() := v], bound)
  {
    var ms' := ms[i := ms[i].(prev := v)];
    forall id | id in index
      ensures index[id] < |ms'| && ms'[index[id]].ID() == id && id in next && id in prev[ms[i].ID() := v] &&
        ms'[index[id]].next == next[id] && ms'[index[id]].prev == prev[ms[i].ID() := v][id]
    {
      if index[id] == i {
        assert id == ms[i].ID();
      }
    }
  }

  /** Changing anything but the ID and the links of an entry keeps the arena. */
  lemma SetDataKeeps(ms: seq<Entry>, index: map<int, nat>, next: map<int, int>, prev: map<int, int>, bound: int, i: nat, d: MomentStorage)
    requires Arena(ms, index, next, prev, bound) && i < |ms| && d.ID == ms[i].ID()
    ensures Arena(ms[i := ms[i].(data := d)], index, next, prev, bound)
  {
    var ms' := ms[i := ms[i].(data := d)];
    assert forall j :: 0 <= j < |ms| ==> ms'[j].ID() == ms[j].ID() && ms'[j].next == ms[j].next && ms'[j].prev == ms[j].prev;
  }

  /** Appending an unlinked entry whose ID is the bound keeps the arena, with the bound
      one higher. */
  lemma AppendKeeps(ms: seq<Entry>, index: map<int, nat>, next: map<int, int>, prev: map<int, int>, bound: int, e: Entry)
    requires Arena(ms, index, next, prev, bound) && e.ID() == bound && e.prev == -1 && e.next == -1
    ensures bound !in index
    ensures Arena(ms + [e], index[bound := |ms|], next[bound := -1], prev[bound := -1], bound + 1)
  {
    var ms' := ms + [e];
    assert forall j :: 0 <= j < |ms| ==> ms'[j] == ms[j];
    assert forall id :: id in index ==> id < bound by {
      forall id | id in index ensures id < bound { assert ms[index[id]].ID() == id; }
    }
  }

  /** In an arena, the search finds an ID exactly when it is indexed, at its index. */
  lemma FindIndexed(ms: seq<Entry>, index: map<int, nat>, next: map<int, int>, prev: map<int, int>, bound: int, id: int)
    requires Arena(ms, index, next, prev, bound)
    ensures FindByID(ms, id) >= 0 <==> id in index
    ensures id in index ==> FindByID(ms, id) == index[id]
  {
    var k := FindByID(ms, id);
    if k >= 0 {
      assert ms[k].ID() in index;
    }
  }

  /** The layout of a timeline with no moments. */
  ghost const Blank := Layout(map[], map[], map[], map[], 0)

  /** With no moments, any head and cursor below the counter are consistent. */
  lemma BlankConsistent(head: int, cursor: int, counter: int)
    requires 0 <= counter && head < counter && cursor < counter
    ensures Consistent([], Blank, head, cursor, counter)
  {
  }

  /** The IDs on the list from `head`, in order. */
  ghost function ChainOf(g: Layout, head: int): seq<int>
    requires Forward(g.next, g.pos, g.posBound) && (head < 0 || head in g.next)
  {
    Walk(g.next, g.pos, g.posBound, head)
  }

  /** Every moment on the list from `head` has the one before it as `prev`, the first
      none: the links are symmetric along the list. */
  ghost predicate MirrorsAt(g: Layout, head: int)
    requires Forward(g.next, g.pos, g.posBound) && (head < 0 || head in g.next)
  {
    Mirrored(g.prev, ChainOf(g, head))
  }

  /** A timeline with no moments, no head and no cursor is consistent and its list is
      empty. */
  lemma EmptyConsistent()
    ensures Consistent([], Blank, -1, -1, 0) && Relinking.Anchored(LinksOf(Blank, -1, -1))
    ensures Walk(Blank.next, Blank.pos, Blank.posBound, -1) == []
  {
  }

  /** In a consistent timeline every link is -1 or an ID below the counter. */
  lemma LinksBelowCounter(ms: seq<Entry>, g: Layout, head: int, cursor: int, counter: int, id: int)
    requires Consistent(ms, g, head, cursor, counter) && id in g.index
    ensures id < counter && g.next[id] < counter && g.prev[id] < counter
  {
    assert ms[g.index[id]].ID() == id;
    var n, p := g.next[id], g.prev[id];
    if n >= 0 {
      assert ms[g.index[n]].ID() == n;
    }
    if p >= 0 {
      assert ms[g.index[p]].ID() == p;
    }
  }

  /** The source's writes for linking the entry at `k` after the entry at `p` (whose ID
      is `x`): the new entry's `prev` and `next`, then the predecessor's `next`. */
  function LinkWrites(ms: seq<Entry>, k: nat, p: nat, x: int): seq<Entry>
    requires k < |ms| && p < |ms|
  {
    var ms1 := ms[k := ms[k].(prev := x)];
    var ms2 := ms1[k := ms1[k].(next := ms1[p].next)];
    ms2[p := ms2[p].(next := ms2[k].ID())]
  }

  /** The source's writes for linking the entry at `k` after the entry for `x`, then
      pointing the old successor (at `a`, when the search finds it) back at the entry,
      leave an arena holding the tables with `InsertAfterID`'s links. */
  lemma LinkArena(ms0: seq<Entry>, index: map<int, nat>, next: map<int, int>, prev: map<int, int>,
                  bound: int, k: nat, x: int, p: nat, a: int, ms: seq<Entry>)
    requires Arena(ms0, index, next, prev, bound) && next.Keys == index.Keys && prev.Keys == index.Keys
    requires k < |ms0| && ms0[k].ID() != x && x in index && p == index[x]
    requires a == FindByID(LinkWrites(ms0, k, p, x), ms0[p].next)
    requires var ms3 := LinkWrites(ms0, k, p, x);
      ms == if a >= 0 then ms3[a := ms3[a].(prev := ms3[k].ID())] else ms3
    ensures var m, y := ms0[k].ID(), next[x];
      Arena(ms, index, next[m := y][x := m], if y in prev then prev[m := x][y := m] else prev[m := x], bound)
    ensures |ms| == |ms0| && forall i :: 0 <= i < |ms| ==> ms[i].data == ms0[i].data
  {
    var m, y := ms0[k].ID(), next[x];
    var ms3 := LinkWrites(ms0, k, p, x);
    LinkWritesArena(ms0, index, next, prev, bound, k, x, p);
    FindIndexed(ms3, index, next[m := y][x := m], prev[m := x], bound, y);
    if a >= 0 {
      SetPrevKeeps(ms3, index, next[m := y][x := m], prev[m := x], bound, a, m);
    }
  }

  /** The three writes that link the entry at `k` after the entry at `p`, whose ID is `x`,
      keep the arena with the tables written alike. */
  lemma LinkWritesArena(ms0: seq<Entry>, index: map<int, nat>, next: map<int, int>, prev: map<int, int>,
                        bound: int, k: nat, x: int, p: nat)
    requires Arena(ms0, index, next, prev, bound)
    requires k < |ms0| && ms0[k].ID() != x && x in index && p == index[x]
    ensures var m, y := ms0[k].ID(), next[x];
      Arena(LinkWrites(ms0, k, p, x), index, next[m := y][x := m], prev[m := x], bound)
    ensures var ms3 := LinkWrites(ms0, k, p, x);
      |ms3| == |ms0| && forall i :: 0 <= i < |ms3| ==> ms3[i].data == ms0[i].data
  {
    var m, y := ms0[k].ID(), next[x];
    var ms1 := ms0[k := ms0[k].(prev := x)];
    SetPrevKeeps(ms0, index, next, prev, bound, k, x);
    var ms2 := ms1[k := ms1[k].(next := ms1[p].next)];
    SetNextKeeps(ms1, index, next, prev[m := x], bound, k, y);
    SetNextKeeps(ms2, index, next[m := y], prev[m := x], bound, p, m);
  }

  /** Linking the detached entry at `k` after the entry for `x`, as the source writes it,
      gives the links `InsertAfterID` gives; the tables stay ordered, in a new order. */
  lemma LinkAfterKeeps(ms0: seq<Entry>, g: Layout, head: int, cursor: int, counter: int,
                       k: nat, x: int, p: nat, a: int, ms: seq<Entry>)
    returns (g': Layout)
    requires Consistent(ms0, g, head, cursor, counter) && Relinking.Anchored(LinksOf(g, head, cursor))
    requires k < |ms0| && Detached(LinksOf(g, head, cursor), ms0[k].ID()) && ms0[k].ID() != x
    requires x in g.index && p == g.index[x]
    requires a == FindByID(LinkWrites(ms0, k, p, x), ms0[p].next)
    requires var ms3 := LinkWrites(ms0, k, p, x);
      ms == if a >= 0 then ms3[a := ms3[a].(prev := ms3[k].ID())] else ms3
    ensures var r := InsertAfterID(LinksOf(g, head, cursor), ms0[k].ID(), x);
      Consistent(ms, g', head, cursor, counter) && g' == g.(next := r.next, prev := r.prev, pos := g'.pos, posBound := g'.posBound) &&
      r.head == head && r.cursor == cursor && Relinking.Anchored(r)
    ensures |ms| == |ms0| && forall i :: 0 <= i < |ms| ==> ms[i].data == ms0[i].data
  {
    var l := LinksOf(g, head, cursor);
    LinkArena(ms0, g.index, g.next, g.prev, counter, k, x, p, a, ms);
    var pos', bound' := InsertAfterIDInserts(l, g.pos, g.posBound, ms0[k].ID(), x);
    var r := InsertAfterID(l, ms0[k].ID(), x);
    g' := g.(next := r.next, prev := r.prev, pos := pos', posBound := bound');
    assert LinksOf(g', head, cursor) == r;
  }

  /** Linking a detached `m` right after `x` puts `m` on the list right after `x` and
      changes nothing else on it; a symmetric list stays symmetric when `x` is on it.
      `g'` is the layout with the new links, in any order that keeps them ordered. */
  lemma LinkedChain(g: Layout, head: int, cursor: int, m: int, x: int, g': Layout)
    requires Ordered(LinksOf(g, head, cursor), g.pos, g.posBound) && Relinking.Anchored(LinksOf(g, head, cursor))
    requires Detached(LinksOf(g, head, cursor), m) && x != m && x in g.next
    requires var r := InsertAfterID(LinksOf(g, head, cursor), m, x);
      g'.next == r.next && g'.prev == r.prev && Ordered(r, g'.pos, g'.posBound) && Relinking.Anchored(r)
    ensures ChainOf(g', head) == InsertAfter(ChainOf(g, head), x, m)
    ensures MirrorsAt(g, head) && x in ChainOf(g, head) ==> MirrorsAt(g', head)
  {
    var l := LinksOf(g, head, cursor);
    var pos', bound' := InsertAfterIDInserts(l, g.pos, g.posBound, m, x);
    var r := InsertAfterID(l, m, x);
    WalkAgree(r.next, pos', bound', r.next, g'.pos, g'.posBound, head);
  }

  /** Making the detached entry at `k` the whole list, as the source writes it, gives
      the links `InsertAfterID` gives for an ID not in the tables. */
  lemma LinkAloneKeeps(ms0: seq<Entry>, g: Layout, head: int, cursor: int, counter: int,
                       k: nat, x: int, ms: seq<Entry>)
    returns (g': Layout)
    requires Consistent(ms0, g, head, cursor, counter)
    requires k < |ms0| && Detached(LinksOf(g, head, cursor), ms0[k].ID()) && x !in g.index
    requires var ms1 := ms0[k := ms0[k].(prev := -1)]; ms == ms1[k := ms1[k].(next := -1)]
    ensures var r := InsertAfterID(LinksOf(g, head, cursor), ms0[k].ID(), x);
      Consistent(ms, g', r.head, cursor, counter) && g' == g.(next := r.next, prev := r.prev) &&
      r.head == ms0[k].ID() && r.cursor == cursor && Relinking.Anchored(r)
    ensures ChainOf(g', ms0[k].ID()) == [ms0[k].ID()] && MirrorsAt(g', ms0[k].ID())
    ensures |ms| == |ms0| && forall i :: 0 <= i < |ms| ==> ms[i].data == ms0[i].data
  {
    var l, m := LinksOf(g, head, cursor), ms0[k].ID();
    var ms1 := ms0[k := ms0[k].(prev := -1)];
    SetPrevKeeps(ms0, g.index, g.next, g.prev, counter, k, -1);
    SetNextKeeps(ms1, g.index, g.next, g.prev[m := -1], counter, k, -1);
    InsertAfterMissingID(l, g.pos, g.posBound, m, x);
    var r := InsertAfterID(l, m, x);
    g' := g.(next := r.next, prev := r.prev);
    assert LinksOf(g', r.head, cursor) == r;
  }

  /** `insertMomentAfterID` on the entries: links the detached entry at `k` right after
      the moment `previousMomentID`, or, when no moment has that ID, makes it the whole
      list (`startHere`, the caller then moves the head to it). The links change exactly
      as `InsertAfterID` says, and no entry's data changes. */
  method LinkMoment(ms0: seq<Entry>, k: nat, previousMomentID: int,
                    ghost g: Layout, ghost head: int, ghost cursor: int, ghost counter: int)
    returns (ms: seq<Entry>, startHere: bool, ghost g': Layout)
    requires Consistent(ms0, g, head, cursor, counter)
    requires k < |ms0| && Detached(LinksOf(g, head, cursor), ms0[k].ID()) && ms0[k].ID() != previousMomentID
    requires previousMomentID in g.index ==> Relinking.Anchored(LinksOf(g, head, cursor))
    ensures startHere <==> previousMomentID !in g.index
    ensures var r := InsertAfterID(LinksOf(g, head, cursor), ms0[k].ID(), previousMomentID);
      r.head == (if startHere then ms0[k].ID() else head) && r.cursor == cursor &&
      Consistent(ms, g', r.head, cursor, counter) && LinksOf(g', r.head, cursor) == r &&
      g'.index == g.index && Relinking.Anchored(r)
    ensures previousMomentID in g.index ==>
      ChainOf(g', head) == InsertAfter(ChainOf(g, head), previousMomentID, ms0[k].ID()) &&
      (MirrorsAt(g, head) && previousMomentID in ChainOf(g, head) ==> MirrorsAt(g', head))
    ensures previousMomentID !in g.index ==> ChainOf(g', ms0[k].ID()) == [ms0[k].ID()] && MirrorsAt(g', ms0[k].ID())
    ensures |ms| == |ms0| && forall i :: 0 <= i < |ms| ==> ms[i].data == ms0[i].data
  {
    FindIndexed(ms0, g.index, g.next, g.prev, counter, previousMomentID);
    ms := ms0;
    var previousMoment := FindByID(ms, previousMomentID);
    if previousMoment >= 0 {
      var subsequentMomentID := ms[previousMoment].next;
      ms := ms[k := ms[k].(prev := previousMomentID)];
      ms := ms[k := ms[k].(next := ms[previousMoment].next)];
      ms := ms[previousMoment := ms[previousMoment].(next := ms[k].ID())];
      var afterMoment := FindByID(ms, subsequentMomentID);
      if afterMoment >= 0 {
        ms := ms[afterMoment := ms[afterMoment].(prev := ms[k].ID())];
      }
      g' := LinkAfterKeeps(ms0, g, head, cursor, counter, k, previousMomentID, previousMoment, afterMoment, ms);
      LinkedChain(g, head, cursor, ms0[k].ID(), previousMomentID, g');
      startHere := false;
    } else {
      startHere := true;
      ms := ms[k := ms[k].(prev := -1)];
      ms := ms[k := ms[k].(next := -1)];
      g' := LinkAloneKeeps(ms0, g, head, cursor, counter, k, previousMomentID, ms);
    }
  }

  /** Deleting `d` as the source writes it, on the entries: the predecessor, when the
      search finds one (at `pk`), takes over `d`'s `next`. */
  lemma UnlinkKeeps(ms0: seq<Entry>, g: Layout, head: int, cursor: int, counter: int,
                    d: int, dk: nat, pk: int, ms: seq<Entry>)
    requires Consistent(ms0, g, head, cursor, counter) && Relinking.Anchored(LinksOf(g, head, cursor))
    requires d in g.index && dk == g.index[d] && pk == FindByID(ms0, ms0[dk].prev)
    requires ms == if pk >= 0 then ms0[pk := ms0[pk].(next := ms0[dk].next)] else ms0
    ensures var r := DeleteAsWritten(LinksOf(g, head, cursor), d);
      Consistent(ms, g.(next := r.next), r.head, r.cursor, counter) && r.prev == g.prev &&
      Relinking.Anchored(r) && (pk >= 0 <==> g.prev[d] in g.index) &&
      (pk >= 0 ==> r.head == head && r.cursor == ms[pk].ID()) &&
      (pk < 0 ==> r.head == ms0[dk].next && r.cursor == ms0[dk].next)
    ensures |ms| == |ms0| && forall i :: 0 <= i < |ms| ==> ms[i].data == ms0[i].data
  {
    var l := LinksOf(g, head, cursor);
    var p := g.prev[d];
    FindIndexed(ms0, g.index, g.next, g.prev, counter, p);
    if pk >= 0 {
      SetNextKeeps(ms0, g.index, g.next, g.prev, counter, pk, ms0[dk].next);
    }
    DeleteKeepsOrder(l, g.pos, g.posBound, d);
    LinksBelowCounter(ms0, g, head, cursor, counter, d);
    if p >= 0 {
      LinksBelowCounter(ms0, g, head, cursor, counter, p);
    }
    var r := DeleteAsWritten(l, d);
    assert LinksOf(g.(next := r.next), r.head, r.cursor) == r;
  }

  /** On a symmetric list, deleting a moment on it takes exactly that moment off the
      list, as written and as intended; only the intended delete leaves it symmetric. */
  lemma DeleteChains(g: Layout, head: int, cursor: int, d: int)
    requires Ordered(LinksOf(g, head, cursor), g.pos, g.posBound) && Relinking.Anchored(LinksOf(g, head, cursor))
    requires MirrorsAt(g, head) && d in ChainOf(g, head)
    ensures var r := DeleteAsWritten(LinksOf(g, head, cursor), d); var g' := g.(next := r.next);
      Forward(g'.next, g'.pos, g'.posBound) && (r.head < 0 || r.head in g'.next) &&
      ChainOf(g', r.head) == RemoveFirst(ChainOf(g, head), d)
    ensures var r := Delete(LinksOf(g, head, cursor), d); var g' := g.(next := r.next, prev := r.prev);
      Forward(g'.next, g'.pos, g'.posBound) && (r.head < 0 || r.head in g'.next) &&
      ChainOf(g', r.head) == RemoveFirst(ChainOf(g, head), d) && MirrorsAt(g', r.head)
  {
    DeleteRemoves(LinksOf(g, head, cursor), g.pos, g.posBound, d);
  }

  /** `deleteMomentByID` as written, on the entries: `pk` is where the search found the
      predecessor (or -1), `doomedNext` the deleted moment's `next`, which the caller makes
      head and cursor when there is no predecessor. The links change exactly as
      `DeleteAsWritten` says. */
  method UnlinkAsWritten(ms0: seq<Entry>, iID: int,
                         ghost g: Layout, ghost head: int, ghost cursor: int, ghost counter: int)
    returns (ms: seq<Entry>, pk: int, doomedNext: int, ghost g': Layout)
    requires Consistent(ms0, g, head, cursor, counter) && Relinking.Anchored(LinksOf(g, head, cursor))
    requires iID in g.index
    ensures var r := DeleteAsWritten(LinksOf(g, head, cursor), iID);
      Consistent(ms, g', r.head, r.cursor, counter) && LinksOf(g', r.head, r.cursor) == r &&
      g' == g.(next := r.next) && Relinking.Anchored(r) && -1 <= pk < |ms| &&
      (pk >= 0 <==> g.prev[iID] in g.index) && doomedNext == g.next[iID] &&
      (pk >= 0 ==> r.head == head && r.cursor == ms[pk].ID() && ms[pk].ID() == g.prev[iID]) &&
      (pk < 0 ==> r.head == doomedNext && r.cursor == doomedNext)
    ensures |ms| == |ms0| && forall i :: 0 <= i < |ms| ==> ms[i].data == ms0[i].data
  {
    FindIndexed(ms0, g.index, g.next, g.prev, counter, iID);
    var theDoomedMoment := FindByID(ms0, iID);
    var predecessor := FindByID(ms0, ms0[theDoomedMoment].prev);
    ms := ms0;
    if predecessor >= 0 {
      ms := ms[predecessor := ms[predecessor].(next := ms0[theDoomedMoment].next)];
    }
    UnlinkKeeps(ms0, g, head, cursor, counter, iID, theDoomedMoment, predecessor, ms);
    pk, doomedNext := predecessor, ms0[theDoomedMoment].next;
    ghost var r := DeleteAsWritten(LinksOf(g, head, cursor), iID);
    g' := g.(next := r.next);
  }

  /** Pointing the successor of the deleted `d` (at `sk`, when the search finds it) back
      at `d`'s predecessor, or at -1 when there is none, after the as-written delete gives
      the links of the intended `Delete`. */
  lemma BackLinkKeeps(ms0: seq<Entry>, g: Layout, head: int, cursor: int, counter: int, d: int,
                      ms1: seq<Entry>, g1: Layout, pk: int, sk: int, ms: seq<Entry>)
    returns (g': Layout)
    requires Consistent(ms0, g, head, cursor, counter) && Relinking.Anchored(LinksOf(g, head, cursor))
    requires d in g.index
    requires var r1 := DeleteAsWritten(LinksOf(g, head, cursor), d);
      Consistent(ms1, g1, r1.head, r1.cursor, counter) && LinksOf(g1, r1.head, r1.cursor) == r1 &&
      g1.index == g.index && g1.pos == g.pos && g1.posBound == g.posBound
    requires -1 <= pk < |ms1| && (pk >= 0 <==> g.prev[d] in g.index) && (pk >= 0 ==> ms1[pk].ID() == g.prev[d])
    requires sk == FindByID(ms1, g.next[d])
    requires ms == if sk >= 0 then ms1[sk := ms1[sk].(prev := if pk >= 0 then ms1[pk].ID() else -1)] else ms1
    ensures var r := Delete(LinksOf(g, head, cursor), d);
      Consistent(ms, g', r.head, r.cursor, counter) && LinksOf(g', r.head, r.cursor) == r &&
      g' == g1.(prev := r.prev) && Relinking.Anchored(r)
    ensures |ms| == |ms1| && forall i :: 0 <= i < |ms| ==> ms[i].data == ms1[i].data
  {
    var l := LinksOf(g, head, cursor);
    var r1, r := DeleteAsWritten(l, d), Delete(l, d);
    var s, v := g.next[d], if pk >= 0 then g.prev[d] else -1;
    FindIndexed(ms1, g1.index, g1.next, g1.prev, counter, s);
    DeleteKeepsOrder(l, g.pos, g.posBound, d);
    if sk >= 0 {
      SetPrevKeeps(ms1, g1.index, g1.next, g1.prev, counter, sk, v);
    }
    g' := g1.(prev := r.prev);
    assert LinksOf(g', r.head, r.cursor) == r;
  }

  /** `deleteMomentByID` as evidently intended, on the entries: as written, and then the
      successor's `prev` moves to the predecessor (or to -1 when there is none). The links
      change exactly as `Delete` says. */
  method Unlink(ms0: seq<Entry>, iID: int,
                ghost g: Layout, ghost head: int, ghost cursor: int, ghost counter: int)
    returns (ms: seq<Entry>, pk: int, doomedNext: int, ghost g': Layout)
    requires Consistent(ms0, g, head, cursor, counter) && Relinking.Anchored(LinksOf(g, head, cursor))
    requires iID in g.index
    ensures var r := Delete(LinksOf(g, head, cursor), iID);
      Consistent(ms, g', r.head, r.cursor, counter) && LinksOf(g', r.head, r.cursor) == r &&
      g' == g.(next := r.next, prev := r.prev) && Relinking.Anchored(r) && -1 <= pk < |ms| &&
      (pk >= 0 ==> r.head == head && r.cursor == ms[pk].ID()) &&
      (pk < 0 ==> r.head == doomedNext && r.cursor == doomedNext)
    ensures |ms| == |ms0| && forall i :: 0 <= i < |ms| ==> ms[i].data == ms0[i].data
  {
    var ms1;
    ghost var g1;
    ms1, pk, doomedNext, g1 := UnlinkAsWritten(ms0, iID, g, head, cursor, counter);
    var successor := FindByID(ms1, doomedNext);
    ms := ms1;
    if successor >= 0 {
      ms := ms[successor := ms[successor].(prev := if pk >= 0 then ms1[pk].ID() else -1)];
    }
    g' := BackLinkKeeps(ms0, g, head, cursor, counter, iID, ms1, g1, pk, successor, ms);
  }

  /** Appending a new unlinked entry whose ID is the counter, and counting it, keeps the
      timeline consistent: the new ID is in no list, and the list from the head, with
      its symmetry, is as it was. */
  lemma AppendConsistent(ms: seq<Entry>, g: Layout, head: int, cursor: int, counter: int, e: Entry)
    returns (g': Layout)
    requires Consistent(ms, g, head, cursor, counter) && e.ID() == counter && e.prev == -1 && e.next == -1
    ensures counter !in g.index && g'.index == g.index[counter := |ms|]
    ensures Consistent(ms + [e], g', head, cursor, counter + 1) && Detached(LinksOf(g', head, cursor), counter)
    ensures LinksOf(g', head, cursor) == WithNew(LinksOf(g, head, cursor), counter)
    ensures Relinking.Anchored(LinksOf(g, head, cursor)) ==>
      Relinking.Anchored(LinksOf(g', head, cursor)) && ChainOf(g', head) == ChainOf(g, head) &&
      (MirrorsAt(g, head) ==> MirrorsAt(g', head))
  {
    g' := Layout(g.index[counter := |ms|], g.next[counter := -1], g.prev[counter := -1],
                 g.pos[counter := g.posBound], g.posBound + 1);
    AppendLayout(ms, g, head, cursor, counter, e, g');
    if Relinking.Anchored(LinksOf(g, head, cursor)) {
      AppendChain(g, head, cursor, counter, g');
    }
  }

  /** The layout extended by an unlinked entry at the end keeps the timeline consistent,
      with the new ID in no list. */
  lemma AppendLayout(ms: seq<Entry>, g: Layout, head: int, cursor: int, counter: int, e: Entry, g': Layout)
    requires Consistent(ms, g, head, cursor, counter) && e.ID() == counter && e.prev == -1 && e.next == -1
    requires g' == Layout(g.index[counter := |ms|], g.next[counter := -1], g.prev[counter := -1],
                          g.pos[counter := g.posBound], g.posBound + 1)
    ensures counter !in g.index && counter !in g.next && head != counter
    ensures Consistent(ms + [e], g', head, cursor, counter + 1) && Detached(LinksOf(g', head, cursor), counter)
  {
    AppendKeeps(ms, g.index, g.next, g.prev, counter, e);
    AppendLinks(g, head, cursor, counter, g');
  }

  /** The link tables extended by an unlinked ID at the end of the order stay ordered and
      leave that ID detached. */
  lemma AppendLinks(g: Layout, head: int, cursor: int, m: int, g': Layout)
    requires Ordered(LinksOf(g, head, cursor), g.pos, g.posBound) && 0 <= m && m !in g.next && head != m
    requires g'.next == g.next[m := -1] && g'.prev == g.prev[m := -1]
    requires g'.pos == g.pos[m := g.posBound] && g'.posBound == g.posBound + 1
    ensures Ordered(LinksOf(g', head, cursor), g'.pos, g'.posBound) && Detached(LinksOf(g', head, cursor), m)
  {
    var l := LinksOf(g, head, cursor);
    assert LinksOf(g', head, cursor) == l.(next := l.next[m := -1], prev := l.prev[m := -1]);
    AddFresh(l, g.pos, g.posBound, m);
  }

  /** The list from the head, and its symmetry, survive adding an unlinked ID at the end
      of the order. */
  lemma AppendChain(g: Layout, head: int, cursor: int, m: int, g': Layout)
    requires Ordered(LinksOf(g, head, cursor), g.pos, g.posBound) && Relinking.Anchored(LinksOf(g, head, cursor))
    requires 0 <= m && m !in g.next && head != m
    requires g'.next == g.next[m := -1] && g'.prev == g.prev[m := -1]
    requires g'.pos == g.pos[m := g.posBound] && g'.posBound == g.posBound + 1
    ensures Relinking.Anchored(LinksOf(g', head, cursor)) && Forward(g'.next, g'.pos, g'.posBound)
    ensures ChainOf(g', head) == ChainOf(g, head)
    ensures MirrorsAt(g, head) ==> MirrorsAt(g', head)
  {
    var l := LinksOf(g, head, cursor);
    AddFresh(l, g.pos, g.posBound, m);
    assert Forward(g'.next, g'.pos, g'.posBound);
    WalkExtend(g.next, g.pos, g.posBound, g'.pos, g'.posBound, head, m, -1);
    if MirrorsAt(g, head) {
      MirroredOff(g.prev, ChainOf(g, head), m, -1);
    }
  }

  /** Moving the cursor to any ID below the counter keeps the timeline consistent. */
  lemma CursorKeeps(ms: seq<Entry>, g: Layout, head: int, cursor: int, counter: int, cursor': int)
    requires Consistent(ms, g, head, cursor, counter) && cursor' < counter
    ensures Consistent(ms, g, head, cursor', counter)
    ensures Relinking.Anchored(LinksOf(g, head, cursor)) ==> Relinking.Anchored(LinksOf(g, head, cursor'))
  {
    assert LinksOf(g, head, cursor') == LinksOf(g, head, cursor).(cursor := cursor');
  }

  /** The timeline's part of a new marker, on values: an unlinked entry holding `d`,
      which carries the counter's ID, is appended and linked right after the cursor, or
      made the whole list when the cursor names no entry, and the counter goes up by
      one. */
  method AddMarker(ms0: seq<Entry>, ghost g: Layout, head: int, cursor: int, counter: int, d: MomentStorage)
    returns (ms: seq<Entry>, head': int, ghost g': Layout)
    requires Consistent(ms0, g, head, cursor, counter) && d.ID == counter
    requires cursor in g.index ==> Relinking.Anchored(LinksOf(g, head, cursor))
    ensures counter !in g.index && g'.index == g.index[counter := |ms0|]
    ensures Consistent(ms, g', head', cursor, counter + 1) && Relinking.Anchored(LinksOf(g', head', cursor))
    ensures |ms| == |ms0| + 1 && ms[|ms0|].data == d
    ensures forall i :: 0 <= i < |ms0| ==> ms[i].data == ms0[i].data
    ensures cursor in g.index ==>
      ChainOf(g', head') == InsertAfter(ChainOf(g, head), cursor, counter) &&
      (MirrorsAt(g, head) && cursor in ChainOf(g, head) ==> MirrorsAt(g', head'))
    ensures cursor !in g.index ==> ChainOf(g', head') == [counter] && MirrorsAt(g', head')
    ensures LinksOf(g', head', cursor) == InsertAfterID(WithNew(LinksOf(g, head, cursor), counter), counter, cursor)
  {
    var e := Entry(d, -1, -1);
    ghost var g1 := AppendConsistent(ms0, g, head, cursor, counter, e);
    var startHere;
    ms, startHere, g' := LinkMoment(ms0 + [e], |ms0|, cursor, g1, head, cursor, counter + 1);
    head' := if startHere then counter else head;
  }

  /** The first capture's marker on values: the array and layout start empty and the
      entry holding `d` becomes the whole list. */
  method FirstMarker(head: int, cursor: int, counter: int, d: MomentStorage)
    returns (ms: seq<Entry>, head': int, ghost g: Layout)
    requires 0 <= counter && head < counter && cursor < counter && d.ID == counter
    ensures Consistent(ms, g, head', counter, counter + 1) && Relinking.Anchored(LinksOf(g, head', counter))
    ensures |ms| == 1 && ms[0].data == d
    ensures ChainOf(g, head') == [counter] && MirrorsAt(g, head')
    ensures LinksOf(g, head', counter) == Links(map[counter := -1], map[counter := -1], counter, counter)
  {
    BlankConsistent(head, cursor, counter);
    ms, head', g := AddMarker([], Blank, head, cursor, counter, d);
    CursorKeeps(ms, g, head', cursor, counter + 1, counter);
  }

  /** A new marker on values, with the first capture's blanking: when no initial state
      is recorded yet the array and layout are emptied and `iCodapState` becomes the
      initial state; then `AddMarker` appends and links the entry holding `d`. */
  method MarkerStep(ms0: seq<Entry>, ghost g0: Layout, head: int, cursor: int, counter: int,
                    first: bool, d: MomentStorage)
    returns (ms: seq<Entry>, head': int, ghost g: Layout)
    requires Consistent(ms0, g0, head, cursor, counter) && Relinking.Anchored(LinksOf(g0, head, cursor))
    requires d.ID == counter
    ensures counter !in g0.index
    ensures Consistent(ms, g, head', counter, counter + 1) && Relinking.Anchored(LinksOf(g, head', counter))
    ensures var kept := if first then [] else ms0;
      |ms| == |kept| + 1 && ms[|kept|].data == d && forall i :: 0 <= i < |kept| ==> ms[i].data == kept[i].data
    ensures !first && cursor in g0.index ==>
      ChainOf(g, head') == InsertAfter(ChainOf(g0, head), cursor, counter) &&
      (MirrorsAt(g0, head) && cursor in ChainOf(g0, head) ==> MirrorsAt(g, head'))
    ensures first || cursor !in g0.index ==> ChainOf(g, head') == [counter] && MirrorsAt(g, head')
    ensures LinksOf(g, head', counter) == MarkerLinks(LinksOf(g0, head, cursor), first, counter)
  {
    if first {
      ms, head', g := FirstMarker(head, cursor, counter, d);
    } else {
      ms, head', g := AddMarker(ms0, g0, head, cursor, counter, d);
      CursorKeeps(ms, g, head', cursor, counter + 1, counter);
    }
  }

  /** Changing the stored fields of the entry at `k`, but not its ID, keeps the timeline
      consistent, and every search finds what it found before. */
  lemma DataKeeps(ms: seq<Entry>, g: Layout, head: int, cursor: int, counter: int, k: nat, d: MomentStorage)
    requires Consistent(ms, g, head, cursor, counter) && k < |ms| && d.ID == ms[k].ID()
    ensures Consistent(ms[k := ms[k].(data := d)], g, head, cursor, counter)
    ensures forall id :: FindByID(ms[k := ms[k].(data := d)], id) == FindByID(ms, id)
  {
    SetDataKeeps(ms, g.index, g.next, g.prev, counter, k, d);
    forall id ensures FindByID(ms[k := ms[k].(data := d)], id) == FindByID(ms, id) {
      FindAfterSet(ms, k, ms[k].(data := d), id);
    }
  }

  /** An entry's own links are the ones the tables record for its ID. */
  lemma EntryLinks(ms: seq<Entry>, g: Layout, head: int, cursor: int, counter: int, k: nat)
    requires Consistent(ms, g, head, cursor, counter) && k < |ms|
    ensures ms[k].ID() in g.next && ms[k].ID() in g.prev
    ensures ms[k].next == g.next[ms[k].ID()] && ms[k].prev == g.prev[ms[k].ID()]
  {
    assert g.index[ms[k].ID()] == k;
  }

  /** `es` holds, in order, the entries of `ms` at the positions `index` gives for `ids`. */
  ghost predicate Gathered(ms: seq<Entry>, index: map<int, nat>, ids: seq<int>, es: seq<Entry>) {
    |es| == |ids| &&
    forall i :: 0 <= i < |ids| ==> ids[i] in index && index[ids[i]] < |ms| && es[i] == ms[index[ids[i]]]
  }

  /** Gathering the next ID of `ids` appends its entry. */
  lemma GatheredStep(ms: seq<Entry>, index: map<int, nat>, ids: seq<int>, n: nat, es: seq<Entry>)
    requires n < |ids| && Gathered(ms, index, ids[..n], es) && ids[n] in index && index[ids[n]] < |ms|
    ensures Gathered(ms, index, ids[..n + 1], es + [ms[index[ids[n]]]])
  {
    var es' := es + [ms[index[ids[n]]]];
    assert forall i :: 0 <= i < n ==> ids[..n + 1][i] == ids[..n][i] && es'[i] == es[i];
  }

  /** `momentsOnThisTimeline` on the entries: from `head`, collects the moment the search
      finds for each ID and follows its `next` until that is negative. In a consistent
      timeline every ID on the way is found, so the loop ends with the list's moments. */
  method CollectChain(ms: seq<Entry>, head: int, ghost g: Layout, ghost counter: int)
    returns (out: seq<Entry>)
    requires Arena(ms, g.index, g.next, g.prev, counter) && g.next.Keys == g.index.Keys
    requires Forward(g.next, g.pos, g.posBound) && (head < 0 || head in g.next)
    ensures Gathered(ms, g.index, ChainOf(g, head), out)
  {
    ghost var chain := ChainOf(g, head);
    ghost var n := 0;
    out := [];
    var xMomentID := head;
    while xMomentID >= 0
      invariant n <= |chain| && (n < |chain| ==> xMomentID == chain[n]) && (n == |chain| ==> xMomentID < 0)
      invariant Gathered(ms, g.index, chain[..n], out)
      decreases |chain| - n
    {
      FindIndexed(ms, g.index, g.next, g.prev, counter, xMomentID);
      var nextMoment := FindByID(ms, xMomentID);
      GatheredStep(ms, g.index, chain, n, out);
      out := out + [ms[nextMoment]];
      xMomentID := ms[nextMoment].next;
      n := n + 1;
    }
    assert chain[..n] == chain;
  }

  class Timeline {
    var moments: seq<Entry>
    var currentID: int
    var startingID: int
    var nextMomentID: int
    var initialCodapState: Value
    var currentCodapState: Value
    /** Where each moment sits, its links by ID, and the order witnessing that the list
        ends; kept in one ghost field. */
    ghost var layout: Layout

    /** The links of the timeline, its head and its cursor. */
    ghost function Tables(): Links
      reads this`layout, this`startingID, this`currentID
    {
      LinksOf(layout, startingID, currentID)
    }

    /** The invariant every operation keeps, except that the head may be stale. */
    ghost predicate Sound()
      reads this`moments, this`layout, this`startingID, this`currentID, this`nextMomentID
    {
      Consistent(moments, layout, startingID, currentID, nextMomentID)
    }

    /** The head is -1 or names a moment. */
    ghost predicate Anchored()
      reads this`layout, this`startingID, this`currentID
    {
      Relinking.Anchored(Tables())
    }

    ghost predicate Valid()
      reads this`moments, this`layout, this`startingID, this`currentID, this`nextMomentID
    {
      Sound() && Anchored()
    }

    /** The IDs on the timeline, in order: the reference for every traversal. */
    ghost function Chain(): seq<int>
      requires Valid()
      reads this`moments, this`layout, this`startingID, this`currentID, this`nextMomentID
    {
      ChainOf(layout, startingID)
    }

    /** Every moment on the list has the one before it as `prev`, the first none. */
    ghost predicate Symmetric()
      requires Valid()
      reads this`moments, this`layout, this`startingID, this`currentID, this`nextMomentID
    {
      MirrorsAt(layout, startingID)
    }

    constructor ()
      ensures Valid() && Chain() == []
      ensures moments == [] && currentID == -1 && startingID == -1 && nextMomentID == 0
      ensures initialCodapState == Null && currentCodapState == Null
    {
      EmptyConsistent();
      moments, layout := [], Blank;
      currentID, startingID, nextMomentID := -1, -1, 0;
      initialCodapState, currentCodapState := Null, Null;
    }

    method SetCurrentID(i: int)
      modifies this`currentID
      ensures currentID == i
    {
      currentID := i;
    }

    method SetStartingID(i: int)
      modifies this`startingID
      ensures startingID == i
    {
      startingID := i;
    }

    /** The first moment with ID `iID`, or None if there is none. */
    function MomentByID(iID: int): (r: Option<Entry>)
      reads this
      ensures r.Some? ==> r.value in moments && r.value.ID() == iID
      ensures r.None? <==> forall i :: 0 <= i < |moments| ==> moments[i].ID() != iID
    {
      var k := FindByID(moments, iID);
      if k < 0 then None else Some(moments[k])
    }

    /** On a sound timeline, looking an ID up finds a moment exactly when the ID is in
        use, and then the one the layout places there. */
    lemma LookupAt(iID: int)
      requires Sound()
      ensures MomentByID(iID).Some? <==> iID in layout.index
      ensures iID in layout.index ==> MomentByID(iID) == Some(moments[layout.index[iID]])
    {
      FindIndexed(moments, layout.index, layout.next, layout.prev, nextMomentID, iID);
    }

    /** The moment under the cursor, if there is one. */
    function CurrentMoment(): (r: Option<Entry>)
      reads this
      ensures r.Some? ==> r.value in moments && r.value.ID() == currentID
      ensures r.None? <==> forall i :: 0 <= i < |moments| ==> moments[i].ID() != currentID
    {
      MomentByID(currentID)
    }

    /** Moves the cursor to the moment `iID` and makes its state the current one. The
        source dereferences the lookup's result, so the ID must name a moment; its `null`
        return is reached only by a moment without a state, which a `Value` cannot be. */
    method OnMomentClick(iID: int) returns (m: Entry)
      requires Valid() && iID in layout.index
      modifies this`currentID, this`currentCodapState
      ensures Valid() && Tables() == old(Tables()).(cursor := iID)
      ensures Some(m) == MomentByID(iID) && m == moments[layout.index[iID]]
      ensures currentID == iID && currentCodapState == m.data.codapState
    {
      LookupAt(iID);
      LinksBelowCounter(moments, layout, startingID, currentID, nextMomentID, iID);
      var tMoment := MomentByID(iID);
      SetCurrentID(iID);
      currentCodapState := tMoment.value.data.codapState;
      m := tMoment.value;
    }

    /** Links the moment at position `k` of the array, which is in no list, right after
        the moment `previousMomentID`, or makes it the whole list when no moment has that
        ID. The links change exactly as `InsertAfterID` says, and nothing else changes. */
    method InsertMomentAfterID(k: nat, previousMomentID: int)
      requires Sound() && k < |moments| && Detached(Tables(), moments[k].ID())
      requires moments[k].ID() != previousMomentID
      requires previousMomentID in layout.index ==> Anchored()
      modifies this`moments, this`startingID, this`layout
      ensures Valid()
      ensures Tables() == InsertAfterID(old(Tables()), old(moments[k].ID()), previousMomentID)
      ensures previousMomentID in old(layout.index) ==>
        Chain() == InsertAfter(old(Chain()), previousMomentID, old(moments[k].ID())) &&
        (old(Symmetric()) && previousMomentID in old(Chain()) ==> Symmetric())
      ensures previousMomentID !in old(layout.index) ==> Chain() == [old(moments[k].ID())] && Symmetric()
      ensures layout.index == old(layout.index) && |moments| == old(|moments|)
      ensures forall i :: 0 <= i < |moments| ==> moments[i].data == old(moments[i].data)
    {
      var ms, startHere, g' := LinkMoment(moments, k, previousMomentID, layout, startingID, currentID, nextMomentID);
      if startHere {
        SetStartingID(moments[k].ID());
      }
      moments, layout := ms, g';
    }

    /** Deletes the moment `iID` as the source writes it: the predecessor its `prev`
        names, when there is one, skips it and becomes the cursor; otherwise its successor
        becomes head and cursor. The links change exactly as `DeleteAsWritten` says. */
    method DeleteMomentByIDAsWritten(iID: int)
      requires Valid() && iID in layout.index
      modifies this`moments, this`startingID, this`currentID, this`layout
      ensures Valid()
      ensures Tables() == DeleteAsWritten(old(Tables()), iID)
      ensures old(MirrorsAt(layout, startingID)) && iID in old(ChainOf(layout, startingID)) ==>
        ChainOf(layout, startingID) == RemoveFirst(old(ChainOf(layout, startingID)), iID)
      ensures layout.index == old(layout.index) && |moments| == old(|moments|)
      ensures forall i :: 0 <= i < |moments| ==> moments[i].data == old(moments[i].data)
    {
      ghost var g0, h0, c0 := layout, startingID, currentID;
      if MirrorsAt(g0, h0) && iID in ChainOf(g0, h0) {
        DeleteChains(g0, h0, c0, iID);
      }
      var ms, predecessor, doomedNext, g' := UnlinkAsWritten(moments, iID, layout, startingID, currentID, nextMomentID);
      if predecessor >= 0 {
        moments, layout, currentID := ms, g', ms[predecessor].ID();
      } else {
        moments, layout, startingID, currentID := ms, g', doomedNext, doomedNext;
      }
    }

    /** Deletes the moment `iID` as evidently intended: as written, and the successor's
        `prev` is moved to the predecessor. The links change exactly as `Delete` says. */
    method DeleteMomentByIDCorrected(iID: int)
      requires Valid() && iID in layout.index
      modifies this`moments, this`startingID, this`currentID, this`layout
      ensures Valid()
      ensures Tables() == Delete(old(Tables()), iID)
      ensures old(MirrorsAt(layout, startingID)) && iID in old(ChainOf(layout, startingID)) ==>
        ChainOf(layout, startingID) == RemoveFirst(old(ChainOf(layout, startingID)), iID) && MirrorsAt(layout, startingID)
      ensures layout.index == old(layout.index) && |moments| == old(|moments|)
      ensures forall i :: 0 <= i < |moments| ==> moments[i].data == old(moments[i].data)
    {
      ghost var g0, h0, c0 := layout, startingID, currentID;
      if MirrorsAt(g0, h0) && iID in ChainOf(g0, h0) {
        DeleteChains(g0, h0, c0, iID);
      }
      var ms, predecessor, doomedNext, g' := Unlink(moments, iID, layout, startingID, currentID, nextMomentID);
      if predecessor >= 0 {
        moments, layout, currentID := ms, g', ms[predecessor].ID();
      } else {
        moments, layout, startingID, currentID := ms, g', doomedNext, doomedNext;
      }
    }

    /** Deletes the moment under the cursor, through the delete as the source writes it:
        the links change exactly as `DeleteAsWritten` says. */
    method DeleteCurrentMoment()
      requires Valid() && currentID in layout.index
      modifies this`moments, this`startingID, this`currentID, this`layout
      ensures Valid()
      ensures Tables() == DeleteAsWritten(old(Tables()), old(currentID))
      ensures old(Symmetric()) && old(currentID) in old(Chain()) ==> Chain() == RemoveFirst(old(Chain()), old(currentID))
      ensures layout.index == old(layout.index) && |moments| == old(|moments|)
      ensures forall i :: 0 <= i < |moments| ==> moments[i].data == old(moments[i].data)
    {
      var theID := currentID;
      DeleteMomentByIDAsWritten(theID);
    }

    /** Deletes the moment under the cursor through the corrected delete: the links change
        exactly as `Delete` says, and a symmetric list stays symmetric. */
    method DeleteCurrentMomentCorrected()
      requires Valid() && currentID in layout.index
      modifies this`moments, this`startingID, this`currentID, this`layout
      ensures Valid()
      ensures Tables() == Delete(old(Tables()), old(currentID))
      ensures old(Symmetric()) && old(currentID) in old(Chain()) ==>
        Chain() == RemoveFirst(old(Chain()), old(currentID)) && Symmetric()
      ensures layout.index == old(layout.index) && |moments| == old(|moments|)
      ensures forall i :: 0 <= i < |moments| ==> moments[i].data == old(moments[i].data)
    {
      var theID := currentID;
      DeleteMomentByIDCorrected(theID);
    }

    /** The moments reached from the head by following `next` until it is negative, in
        that order. On a valid timeline every ID on the way names a moment, so the loop,
        which in the source would spin on a missing ID, ends. */
    method MomentsOnThisTimeline() returns (out: seq<Entry>)
      requires Valid()
      ensures |out| == |Chain()|
      ensures forall i :: 0 <= i < |out| ==> MomentByID(Chain()[i]) == Some(out[i])
    {
      out := CollectChain(moments, startingID, layout, nextMomentID);
      GatheredByID(Chain(), out);
    }

    /** The entries the layout places at IDs in use are the moments a lookup finds. */
    lemma GatheredByID(ids: seq<int>, es: seq<Entry>)
      requires Sound() && Gathered(moments, layout.index, ids, es)
      ensures forall i :: 0 <= i < |ids| ==> MomentByID(ids[i]) == Some(es[i])
    {
      forall i | 0 <= i < |ids| ensures MomentByID(ids[i]) == Some(es[i]) {
        LookupAt(ids[i]);
      }
    }

    /** Records a marker for the document state `iCodapState`, created at time `now`. On
        the first capture the array is blanked and the state becomes the initial one.
        The new moment takes the counter's ID, which then goes up by one; it is appended
        to the array, linked right after the cursor (or made the whole list when the
        cursor names no moment) and becomes the cursor, marked and titled. The moment
        object returned and the entry the array holds agree field for field. */
    method MakeMarkerOnDemand(iCodapState: Value, now: int) returns (tNewMoment: Moment)
      requires Valid()
      modifies this
      ensures fresh(tNewMoment) && Valid()
      ensures tNewMoment.ID == old(nextMomentID) && nextMomentID == old(nextMomentID) + 1
      ensures tNewMoment.ID !in old(layout.index)
      ensures currentID == tNewMoment.ID && currentCodapState == iCodapState
      ensures initialCodapState == Captured(old(initialCodapState), iCodapState)
      ensures tNewMoment.isMarker && tNewMoment.title == MarkerTitle(tNewMoment.ID)
      ensures tNewMoment.narrative == MarkerNarrative
      ensures tNewMoment.codapState == iCodapState && tNewMoment.created == now
      ensures var kept := if old(initialCodapState) == Null then [] else old(moments);
        |moments| == |kept| + 1 && (forall i :: 0 <= i < |kept| ==> moments[i].data == kept[i].data) &&
        moments[|kept|] == Entry(tNewMoment.CreateStorage(), tNewMoment.prev, tNewMoment.next)
      ensures Tables() == MarkerLinks(old(Tables()), old(initialCodapState) == Null, tNewMoment.ID)
      ensures tNewMoment.ID in Tables().next && tNewMoment.ID in Tables().prev
      ensures tNewMoment.next == Tables().next[tNewMoment.ID] && tNewMoment.prev == Tables().prev[tNewMoment.ID]
    {
      var first := initialCodapState == Null;
      var id := nextMomentID;
      initialCodapState := Captured(initialCodapState, iCodapState);
      currentCodapState := iCodapState;
      var last := RecordMarker(first, MomentStorage(id, iCodapState, true, MarkerTitle(id), now, MarkerNarrative));
      tNewMoment := NewMarker(iCodapState, now, id, last.prev, last.next);
    }

    /** The timeline's part of a new marker: blanks the array when `first` (the first
        capture), appends the entry holding `d`, which carries the counter's ID, links it
        after the cursor, makes it the cursor and advances the counter. */
    method RecordMarker(first: bool, d: MomentStorage) returns (last: Entry)
      requires Valid() && d.ID == nextMomentID
      modifies this`moments, this`layout, this`startingID, this`currentID, this`nextMomentID
      ensures Valid() && nextMomentID == old(nextMomentID) + 1 && d.ID !in old(layout.index)
      ensures currentID == d.ID
      ensures var kept := if first then [] else old(moments);
        |moments| == |kept| + 1 && moments[|kept|] == last && last.data == d &&
        forall i :: 0 <= i < |kept| ==> moments[i].data == kept[i].data
      ensures Tables() == MarkerLinks(old(Tables()), first, d.ID)
      ensures d.ID in Tables().next && d.ID in Tables().prev
      ensures last.next == Tables().next[d.ID] && last.prev == Tables().prev[d.ID]
    {
      var ms, head', g := MarkerStep(moments, layout, startingID, currentID, nextMomentID, first, d);
      last := ms[|ms| - 1];
      EntryLinks(ms, g, head', nextMomentID, nextMomentID + 1, |ms| - 1);
      moments, layout, startingID, currentID, nextMomentID := ms, g, head', nextMomentID, nextMomentID + 1;
    }

    /** Replaces the narrative of the moment under the cursor, if there is one; no other
        moment and no link changes. */
    method SetNewNarrative(iString: string)
      requires Valid()
      modifies this`moments
      ensures Valid() && layout == old(layout) && |moments| == old(|moments|)
      ensures CurrentMoment() == match old(CurrentMoment())
        case None => None
        case Some(e) => Some(e.(data := e.data.(narrative := iString)))
      ensures forall id :: id != currentID ==> MomentByID(id) == old(MomentByID(id))
    {
      var theMoment := FindByID(moments, currentID);
      if theMoment >= 0 {
        var e := moments[theMoment];
        DataKeeps(moments, layout, startingID, currentID, nextMomentID, theMoment, e.data.(narrative := iString));
        moments := moments[theMoment := e.(data := e.data.(narrative := iString))];
      }
    }
  }
}
