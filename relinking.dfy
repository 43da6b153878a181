/** What inserting and deleting do to a timeline's links, on the pure view of them: the
    `next` and `prev` tables (by moment ID), the head and the cursor. The timeline's
    methods are proved to change its links exactly as these functions say. */
module Relinking {
  import opened Chains

  /** The links of an arena: each record's successor and predecessor by ID, the head of
      the list and the cursor. */
  datatype Links = Links(next: map<int, int>, prev: map<int, int>, head: int, cursor: int)

  /** The tables hold the same IDs, all non-negative; every link is -1 or an ID;
      `next` links go forward and `prev` links backward in the order `pos`. */
  ghost predicate Ordered(l: Links, pos: map<int, nat>, bound: nat) {
    l.next.Keys == l.prev.Keys && Forward(l.next, pos, bound) && Backward(l.prev, pos) &&
    forall id :: id in l.next ==> id >= 0 && l.next[id] >= -1 && l.prev[id] >= -1
  }

  /** The head is -1 or an ID of the tables. */
  ghost predicate Anchored(l: Links) {
    l.head < 0 || l.head in l.next
  }

  /** `m` is an ID in no list: it has no links, no link leads to it and it is not the head. */
  ghost predicate Detached(l: Links, m: int) {
    0 <= m && m in l.next && m in l.prev && l.next[m] < 0 && l.prev[m] < 0 && l.head != m &&
    (forall id :: id in l.next ==> l.next[id] != m) && (forall id :: id in l.prev ==> l.prev[id] != m)
  }

  /** Every record on the list has the one before it as `prev`, the first none. */
  ghost predicate Symmetric(l: Links, pos: map<int, nat>, bound: nat)
    requires Ordered(l, pos, bound) && Anchored(l)
  {
    Mirrored(l.prev, Walk(l.next, pos, bound, l.head))
  }

  /** The tables with a new ID `m` that has no links yet, as a moment is pushed onto the
      array before it is linked. */
  function WithNew(l: Links, m: int): Links {
    l.(next := l.next[m := -1], prev := l.prev[m := -1])
  }

  /** `insertMomentAfterID(m, x)`: when `x` is an ID, `m` goes between `x` and `x`'s old
      successor (whose `prev` is updated if it is an ID); otherwise `m`, unlinked, becomes
      the head. */
  function InsertAfterID(l: Links, m: int, x: int): Links {
    if x in l.next then
      var y := l.next[x];
      l.(next := l.next[m := y][x := m],
         prev := if y in l.prev then l.prev[m := x][y := m] else l.prev[m := x])
    else
      l.(next := l.next[m := -1], prev := l.prev[m := -1], head := m)
  }

  /** The links after `makeMarkerOnDemand` gives the new ID `m` to a moment: on the first
      capture the old moments are dropped and `m` is the whole list; otherwise `m` is
      added and inserted after the cursor. Either way `m` becomes the cursor. */
  function MarkerLinks(l: Links, first: bool, m: int): Links {
    if first then Links(map[m := -1], map[m := -1], m, m)
    else InsertAfterID(WithNew(l, m), m, l.cursor).(cursor := m)
  }

  /** `deleteMomentByID(d)` as written: the predecessor named by `d`'s `prev`, when it is
      an ID, is linked to `d`'s successor and becomes the cursor; otherwise the successor
      becomes head and cursor. The successor's `prev` is left pointing at `d`. */
  function DeleteAsWritten(l: Links, d: int): Links
    requires d in l.next && d in l.prev
  {
    var p := l.prev[d];
    if p in l.next then l.(next := l.next[p := l.next[d]], cursor := p)
    else l.(head := l.next[d], cursor := l.next[d])
  }

  /** `deleteMomentByID(d)` as evidently intended: as written, and the successor's `prev`
      is moved to the predecessor (or to -1 when `d` had none). */
  function Delete(l: Links, d: int): Links
    requires d in l.next && d in l.prev
  {
    var p, s := l.prev[d], l.next[d];
    var r := DeleteAsWritten(l, d);
    if s in l.prev then r.(prev := l.prev[s := if p in l.next then p else -1]) else r
  }

  /** A new ID, unlinked and placed at the end of the order, is detached, and the list
      from the head is as it was. */
  lemma AddDetached(l: Links, pos: map<int, nat>, bound: nat, m: int)
    requires Ordered(l, pos, bound) && Anchored(l) && 0 <= m && m !in l.next && l.head != m
    ensures var l' := l.(next := l.next[m := -1], prev := l.prev[m := -1]);
      Ordered(l', pos[m := bound], bound + 1) && Anchored(l') && Detached(l', m) &&
      Walk(l'.next, pos[m := bound], bound + 1, l.head) == Walk(l.next, pos, bound, l.head) &&
      m !in Walk(l.next, pos, bound, l.head)
  {
    var l' := l.(next := l.next[m := -1], prev := l.prev[m := -1]);
    AddFresh(l, pos, bound, m);
    WalkExtend(l.next, pos, bound, pos[m := bound], bound + 1, l.head, m, -1);
  }

  /** A new ID, unlinked and placed at the end of the order, is detached, whatever the
      head is. */
  lemma AddFresh(l: Links, pos: map<int, nat>, bound: nat, m: int)
    requires Ordered(l, pos, bound) && 0 <= m && m !in l.next && l.head != m
    ensures var l' := l.(next := l.next[m := -1], prev := l.prev[m := -1]);
      Ordered(l', pos[m := bound], bound + 1) && Detached(l', m)
  {
    AddOrdered(l, pos, bound, m);
  }

  /** The tables extended by a new unlinked ID at the end of the order stay ordered. */
  lemma AddOrdered(l: Links, pos: map<int, nat>, bound: nat, m: int)
    requires Ordered(l, pos, bound) && 0 <= m && m !in l.next
    ensures var l' := l.(next := l.next[m := -1], prev := l.prev[m := -1]);
      Ordered(l', pos[m := bound], bound + 1)
  {
    AddForward(l.next, pos, bound, m);
    AddBackward(l.prev, pos, m, bound);
  }

  /** A new unlinked ID at the end of the order keeps `next` links forward. */
  lemma AddForward(next: map<int, int>, pos: map<int, nat>, bound: nat, m: int)
    requires Forward(next, pos, bound) && m !in next
    ensures Forward(next[m := -1], pos[m := bound], bound + 1)
  {
    var next', pos' := next[m := -1], pos[m := bound];
    forall id | id in next'
      ensures id in pos' && pos'[id] < bound + 1 &&
        (next'[id] >= 0 ==> next'[id] in next' && next'[id] in pos' && pos'[id] < pos'[next'[id]])
    {
      if id != m && next[id] >= 0 {
        assert next[id] != m;
      }
    }
  }

  /** A new unlinked ID at the end of the order keeps `prev` links backward. */
  lemma AddBackward(prev: map<int, int>, pos: map<int, nat>, m: int, at: nat)
    requires Backward(prev, pos) && m !in prev
    ensures Backward(prev[m := -1], pos[m := at])
  {
    var prev', pos' := prev[m := -1], pos[m := at];
    forall id | id in prev'
      ensures id in pos' && (prev'[id] >= 0 ==> prev'[id] in prev' && prev'[id] in pos' && pos'[prev'[id]] < pos'[id])
    {
      if id != m && prev[id] >= 0 {
        assert prev[id] != m;
      }
    }
  }

  /** Adding an unlinked ID off the list keeps the list symmetric. */
  lemma AddDetachedSymmetric(l: Links, pos: map<int, nat>, bound: nat, m: int)
    requires Ordered(l, pos, bound) && Anchored(l) && 0 <= m && m !in l.next && l.head != m
    requires Symmetric(l, pos, bound)
    ensures var l' := l.(next := l.next[m := -1], prev := l.prev[m := -1]);
      Ordered(l', pos[m := bound], bound + 1) && Anchored(l') &&
      Symmetric(l', pos[m := bound], bound + 1)
  {
    AddDetached(l, pos, bound, m);
    var l' := l.(next := l.next[m := -1], prev := l.prev[m := -1]);
    var w := Walk(l.next, pos, bound, l.head);
    forall k | 0 <= k < |w|
      ensures w[k] in l'.prev && l'.prev[w[k]] == (if k == 0 then -1 else w[k - 1])
    {
      MirroredAt(l.prev, w, k);
    }
    assert Walk(l'.next, pos[m := bound], bound + 1, l'.head) == w;
    assert Mirrored(l'.prev, w);
  }

  /** Inserting a detached record after an existing `x` keeps the tables ordered (with
      `m` placed right after `x`): the list gains `m` right after `x` and nothing else,
      and if every record on it had its predecessor as `prev` and `x` was on it, that
      still holds. */
  lemma InsertAfterIDInserts(l: Links, pos: map<int, nat>, bound: nat, m: int, x: int)
    returns (pos': map<int, nat>, bound': nat)
    requires Ordered(l, pos, bound) && Anchored(l) && Detached(l, m) && x != m && x in l.next
    ensures x in pos && pos' == ShiftAfter(pos, pos[x])[m := pos[x] + 1] && bound' == bound + 1
    ensures var r := InsertAfterID(l, m, x);
      Ordered(r, pos', bound') && Anchored(r) && r.head == l.head && r.cursor == l.cursor &&
      Walk(r.next, pos', bound', r.head) == InsertAfter(Walk(l.next, pos, bound, l.head), x, m)
    ensures Symmetric(l, pos, bound) && x in Walk(l.next, pos, bound, l.head) ==>
      Symmetric(InsertAfterID(l, m, x), pos', bound')
  {
    var y := l.next[x];
    pos', bound' := ShiftAfter(pos, pos[x])[m := pos[x] + 1], bound + 1;
    InsertLinks(l.next, l.prev, pos, bound, x, m);
    assert y in l.prev <==> y >= 0;
    WalkInsert(l.next, pos, bound, pos', bound', l.head, x, m);
    var w := Walk(l.next, pos, bound, l.head);
    if Symmetric(l, pos, bound) && x in w {
      InsertKeepsSymmetric(l, pos, bound, m, x);
    }
  }

  /** The `prev` table after inserting `m` after `x` on a symmetric list mirrors the
      list with `m` inserted. */
  lemma InsertKeepsSymmetric(l: Links, pos: map<int, nat>, bound: nat, m: int, x: int)
    requires Ordered(l, pos, bound) && Anchored(l) && Detached(l, m) && x != m && x in l.next
    requires Symmetric(l, pos, bound) && x in Walk(l.next, pos, bound, l.head)
    ensures var w := Walk(l.next, pos, bound, l.head); var y := l.next[x];
      Mirrored(if y >= 0 then l.prev[m := x][y := m] else l.prev[m := x], InsertAfter(w, x, m))
  {
    var w := Walk(l.next, pos, bound, l.head);
    var k := InsertPlace(l, pos, bound, m, x);
    MirroredInsert(l.prev, w, k, m, l.next[x]);
  }

  /** Where `m` goes when inserted after `x` on the list: right after position `k`,
      between `x` and its successor; `m` is not on the list, whose IDs are distinct. */
  lemma InsertPlace(l: Links, pos: map<int, nat>, bound: nat, m: int, x: int) returns (k: nat)
    requires Ordered(l, pos, bound) && Anchored(l) && Detached(l, m) && x in Walk(l.next, pos, bound, l.head)
    ensures var w := Walk(l.next, pos, bound, l.head); var y := l.next[x];
      k < |w| && w[k] == x && m !in w && (forall i :: 0 <= i < |w| ==> w[i] >= 0) &&
      (forall i, j :: 0 <= i < j < |w| ==> w[i] != w[j]) &&
      (k + 1 < |w| ==> y == w[k + 1]) && (k + 1 == |w| ==> y < 0) &&
      InsertAfter(w, x, m) == w[..k + 1] + [m] + w[k + 1..]
  {
    var w := Walk(l.next, pos, bound, l.head);
    k := TakeThroughAt(w, x);
    InsertAfterSplit(w, x, m);
    WalkDistinct(l.next, pos, bound, l.head);
    UnlinkedNotWalked(l.next, pos, bound, l.head, m);
    assert k + 1 < |w| ==> l.next[x] == w[k + 1];
  }

  /** Inserting a detached record after an ID that is not there makes it the whole
      list, which is then trivially symmetric. */
  lemma InsertAfterMissingID(l: Links, pos: map<int, nat>, bound: nat, m: int, x: int)
    requires Ordered(l, pos, bound) && Detached(l, m) && x !in l.next
    ensures var r := InsertAfterID(l, m, x);
      Ordered(r, pos, bound) && Anchored(r) && r.head == m && r.cursor == l.cursor &&
      Walk(r.next, pos, bound, r.head) == [m] && Symmetric(r, pos, bound)
  {
    var r := InsertAfterID(l, m, x);
    assert r.next == l.next && r.prev == l.prev;
    assert Walk(r.next, pos, bound, l.next[m]) == [];
  }

  /** What a new marker does to the list. `m` is a new ID: in no table, and neither the
      head nor the cursor. On the first capture, or when the cursor names no record, the
      list is `m` alone. Otherwise it is the old list with `m` right after the cursor,
      and a symmetric list on which the cursor lies stays symmetric. The walk is the same
      for any order in which the new `next` links go forward. */
  lemma MarkerLinksWalk(l: Links, pos: map<int, nat>, bound: nat, first: bool, m: int,
                        pos': map<int, nat>, bound': nat)
    requires Ordered(l, pos, bound) && Anchored(l) && 0 <= m && m !in l.next && l.head != m && l.cursor != m
    requires var r := MarkerLinks(l, first, m); Forward(r.next, pos', bound') && (r.head < 0 || r.head in r.next)
    ensures var r := MarkerLinks(l, first, m); var w := Walk(r.next, pos', bound', r.head);
      r.cursor == m &&
      (!first && l.cursor in l.next ==>
        w == InsertAfter(Walk(l.next, pos, bound, l.head), l.cursor, m) &&
        (Symmetric(l, pos, bound) && l.cursor in Walk(l.next, pos, bound, l.head) ==> Mirrored(r.prev, w))) &&
      (first || l.cursor !in l.next ==> w == [m] && Mirrored(r.prev, w))
  {
    if first {
      MarkerFirst(m, pos', bound');
    } else if l.cursor in l.next {
      MarkerAfterCursor(l, pos, bound, m, pos', bound');
    } else {
      MarkerAlone(l, pos, bound, m, pos', bound');
    }
  }

  /** The first marker is the whole list. */
  lemma MarkerFirst(m: int, pos: map<int, nat>, bound: nat)
    requires Forward(map[m := -1], pos, bound) && 0 <= m
    ensures Walk(map[m := -1], pos, bound, m) == [m] && Mirrored(map[m := -1], [m])
  {
    assert Walk(map[m := -1], pos, bound, m) == [m] + Walk(map[m := -1], pos, bound, -1);
  }

  /** A new marker after a cursor that names a record goes right after it on the list. */
  lemma MarkerAfterCursor(l: Links, pos: map<int, nat>, bound: nat, m: int, pos': map<int, nat>, bound': nat)
    requires Ordered(l, pos, bound) && Anchored(l) && 0 <= m && m !in l.next && l.head != m && l.cursor in l.next
    requires var r := InsertAfterID(WithNew(l, m), m, l.cursor); Forward(r.next, pos', bound') && (r.head < 0 || r.head in r.next)
    ensures var r := InsertAfterID(WithNew(l, m), m, l.cursor); var w := Walk(r.next, pos', bound', r.head);
      w == InsertAfter(Walk(l.next, pos, bound, l.head), l.cursor, m) &&
      (Symmetric(l, pos, bound) && l.cursor in Walk(l.next, pos, bound, l.head) ==> Mirrored(r.prev, w))
  {
    var l1, pos1, bound1 := WithNew(l, m), pos[m := bound], bound + 1;
    var r := InsertAfterID(l1, m, l.cursor);
    AddDetached(l, pos, bound, m);
    if Symmetric(l, pos, bound) && l.cursor in Walk(l.next, pos, bound, l.head) {
      AddDetachedSymmetric(l, pos, bound, m);
    }
    var pos2, bound2 := InsertAfterIDInserts(l1, pos1, bound1, m, l.cursor);
    WalkIsChain(r.next, pos2, bound2, r.head);
    WalkUnique(r.next, pos', bound', r.head, Walk(r.next, pos2, bound2, r.head));
  }

  /** A new marker whose cursor names no record is the whole list. */
  lemma MarkerAlone(l: Links, pos: map<int, nat>, bound: nat, m: int, pos': map<int, nat>, bound': nat)
    requires Ordered(l, pos, bound) && 0 <= m && m !in l.next && l.head != m && l.cursor != m && l.cursor !in l.next
    requires var r := InsertAfterID(WithNew(l, m), m, l.cursor); Forward(r.next, pos', bound') && (r.head < 0 || r.head in r.next)
    ensures var r := InsertAfterID(WithNew(l, m), m, l.cursor); var w := Walk(r.next, pos', bound', r.head);
      w == [m] && Mirrored(r.prev, w)
  {
    var l1, pos1, bound1 := WithNew(l, m), pos[m := bound], bound + 1;
    var r := InsertAfterID(l1, m, l.cursor);
    AddFresh(l, pos, bound, m);
    InsertAfterMissingID(l1, pos1, bound1, m, l.cursor);
    WalkIsChain(r.next, pos1, bound1, r.head);
    WalkUnique(r.next, pos', bound', r.head, Walk(r.next, pos1, bound1, r.head));
  }

  /** Deleting a record, as written or as intended, keeps the tables ordered in the same
      order and the head anchored. */
  lemma DeleteKeepsOrder(l: Links, pos: map<int, nat>, bound: nat, d: int)
    requires Ordered(l, pos, bound) && Anchored(l) && d in l.next
    ensures Ordered(DeleteAsWritten(l, d), pos, bound) && Anchored(DeleteAsWritten(l, d))
    ensures Ordered(Delete(l, d), pos, bound) && Anchored(Delete(l, d))
  {
    var p, s := l.prev[d], l.next[d];
    if p in l.next {
      BypassForward(l.next, pos, bound, p, d);
    }
    if s in l.prev {
      var v := if p in l.next then p else -1;
      var prev' := l.prev[s := v];
      forall id | id in prev'
        ensures id in pos && (prev'[id] >= 0 ==> prev'[id] in prev' && prev'[id] in pos && pos[prev'[id]] < pos[id])
      {
        if id == s && v >= 0 {
          assert pos[p] < pos[d] < pos[s];
        }
      }
    }
  }

  /** On a symmetric list, deleting a record on it removes exactly that record, both as
      written and as intended; only the intended version keeps the list symmetric. */
  lemma DeleteRemoves(l: Links, pos: map<int, nat>, bound: nat, d: int)
    requires Ordered(l, pos, bound) && Anchored(l) && Symmetric(l, pos, bound)
    requires d in Walk(l.next, pos, bound, l.head)
    ensures Ordered(DeleteAsWritten(l, d), pos, bound) && Anchored(DeleteAsWritten(l, d))
    ensures Ordered(Delete(l, d), pos, bound) && Anchored(Delete(l, d))
    ensures Walk(DeleteAsWritten(l, d).next, pos, bound, DeleteAsWritten(l, d).head) == RemoveFirst(Walk(l.next, pos, bound, l.head), d)
    ensures Walk(Delete(l, d).next, pos, bound, Delete(l, d).head) == RemoveFirst(Walk(l.next, pos, bound, l.head), d)
    ensures Symmetric(Delete(l, d), pos, bound)
  {
    DeleteKeepsOrder(l, pos, bound, d);
    var w := Walk(l.next, pos, bound, l.head);
    WalkDistinct(l.next, pos, bound, l.head);
    var k := TakeThroughAt(w, d);
    RemoveFirstAt(w, d, k);
    AsWrittenUnlinks(l, pos, bound, d, k);
    DeleteMovesPrev(l, pos, bound, d);
    DeleteKeepsSymmetric(l, pos, bound, d, k);
  }

  /** Dropping the `k`-th record `d` of a symmetric list and pointing its successor back
      at its predecessor leaves the rest symmetric. */
  lemma DeleteKeepsSymmetric(l: Links, pos: map<int, nat>, bound: nat, d: int, k: nat)
    requires Ordered(l, pos, bound) && Anchored(l) && Symmetric(l, pos, bound)
    requires var w := Walk(l.next, pos, bound, l.head); k < |w| && w[k] == d
    ensures var w := Walk(l.next, pos, bound, l.head); var s := l.next[d];
      Mirrored(if s >= 0 then l.prev[s := l.prev[d]] else l.prev, w[..k] + w[k + 1..])
  {
    var w := Walk(l.next, pos, bound, l.head);
    WalkDistinct(l.next, pos, bound, l.head);
    var s := l.next[d];
    assert k + 1 < |w| ==> s == w[k + 1];
    MirroredRemove(l.prev, w, k, s);
  }

  /** The intended delete differs from the as-written one only in the successor's `prev`. */
  lemma DeleteMovesPrev(l: Links, pos: map<int, nat>, bound: nat, d: int)
    requires Ordered(l, pos, bound) && d in l.next
    ensures var s := l.next[d];
      Delete(l, d).next == DeleteAsWritten(l, d).next && Delete(l, d).head == DeleteAsWritten(l, d).head &&
      Delete(l, d).prev == if s >= 0 then l.prev[s := l.prev[d]] else l.prev
  {
    var p, s := l.prev[d], l.next[d];
    assert s in l.prev <==> s >= 0;
    assert p in l.next <==> p >= 0;
  }

  /** The chain after the as-written delete of the `k`-th record `d`. */
  lemma AsWrittenUnlinks(l: Links, pos: map<int, nat>, bound: nat, d: int, k: nat)
    requires Ordered(l, pos, bound) && Anchored(l) && Symmetric(l, pos, bound)
    requires var w := Walk(l.next, pos, bound, l.head); k < |w| && w[k] == d && d !in w[..k]
    requires Ordered(DeleteAsWritten(l, d), pos, bound) && Anchored(DeleteAsWritten(l, d))
    ensures var w := Walk(l.next, pos, bound, l.head);
      Walk(DeleteAsWritten(l, d).next, pos, bound, DeleteAsWritten(l, d).head) == w[..k] + w[k + 1..]
  {
    var w := Walk(l.next, pos, bound, l.head);
    MirroredAt(l.prev, w, k);
    var p, s := l.prev[d], l.next[d];
    if k > 0 {
      assert p == w[k - 1] && l.next[p] == d;
      WalkUnlink(l.next, pos, bound, l.head, p, d);
      WalkDistinct(l.next, pos, bound, l.head);
      RemoveFirstAt(w, d, k);
    } else {
      assert l.head == d;
      WalkStep(l.next, pos, bound, d);
    }
  }
}
