/** A concrete run of the timeline's delete, as written and as intended, on a list of
    three moments. */
module StaleLink {
  import opened Chains
  import opened Relinking

  /** The list 0, 1, 2 with its predecessors mirrored, in its natural order. */
  function Example(): Links {
    Links(map[0 := 1, 1 := 2, 2 := -1], map[0 := -1, 1 := 0, 2 := 1], 0, 0)
  }

  /** Deleting 1 and then 2 from the list 0, 1, 2: as written, the second delete follows
      2's stale `prev` to the deleted 1, so 2 stays on the list and the cursor lands on
      the deleted 1; as intended, the list is 0 alone with the cursor on 0. */
  lemma StaleLinkExample()
    ensures var pos := map[0 := 0, 1 := 1, 2 := 2];
      var a := DeleteAsWritten(DeleteAsWritten(Example(), 1), 2);
      var b := Delete(Delete(Example(), 1), 2);
      Ordered(a, pos, 3) && Anchored(a) && Walk(a.next, pos, 3, a.head) == [0, 2] && a.cursor == 1 &&
      Ordered(b, pos, 3) && Anchored(b) && Walk(b.next, pos, 3, b.head) == [0] && b.cursor == 0
  {
    var a := AsWrittenTwice();
    var b := IntendedTwice();
    AsWrittenChain(a);
    IntendedChain(b);
  }

  /** The list left by the two as-written deletes is 0, 2: the deleted 2 is still on it. */
  lemma AsWrittenChain(a: Links)
    requires a.next == map[0 := 2, 1 := -1, 2 := -1] && a.prev == Example().prev && a.head == 0
    ensures var pos := map[0 := 0, 1 := 1, 2 := 2];
      Ordered(a, pos, 3) && Anchored(a) && Walk(a.next, pos, 3, a.head) == [0, 2]
  {
    var pos := map[0 := 0, 1 := 1, 2 := 2];
    ExampleOrdered(a, pos);
    assert IsChainFrom(a.next, 0, [0, 2]);
    WalkUnique(a.next, pos, 3, 0, [0, 2]);
  }

  /** The list left by the two intended deletes is 0 alone. */
  lemma IntendedChain(b: Links)
    requires b.next == map[0 := -1, 1 := 2, 2 := -1] && b.prev == map[0 := -1, 1 := 0, 2 := 0] && b.head == 0
    ensures var pos := map[0 := 0, 1 := 1, 2 := 2];
      Ordered(b, pos, 3) && Anchored(b) && Walk(b.next, pos, 3, b.head) == [0]
  {
    var pos := map[0 := 0, 1 := 1, 2 := 2];
    ExampleOrdered(b, pos);
    assert IsChainFrom(b.next, 0, [0]);
    WalkUnique(b.next, pos, 3, 0, [0]);
  }

  /** The links after deleting 1 and then 2 from `Example()` as written. */
  lemma AsWrittenTwice() returns (a: Links)
    ensures a == DeleteAsWritten(DeleteAsWritten(Example(), 1), 2)
    ensures a.next == map[0 := 2, 1 := -1, 2 := -1] && a.prev == Example().prev
    ensures a.head == 0 && a.cursor == 1
  {
    a := DeleteAsWritten(DeleteAsWritten(Example(), 1), 2);
  }

  /** The links after deleting 1 and then 2 from `Example()` as intended. */
  lemma IntendedTwice() returns (b: Links)
    ensures b == Delete(Delete(Example(), 1), 2)
    ensures b.next == map[0 := -1, 1 := 2, 2 := -1] && b.prev == map[0 := -1, 1 := 0, 2 := 0]
    ensures b.head == 0 && b.cursor == 0
  {
    b := Delete(Delete(Example(), 1), 2);
  }

  /** Links over the IDs 0, 1, 2 whose links all go forward (and back) in that order. */
  lemma ExampleOrdered(l: Links, pos: map<int, nat>)
    requires pos == map[0 := 0, 1 := 1, 2 := 2] && l.head == 0
    requires l.next.Keys == {0, 1, 2} && l.prev.Keys == {0, 1, 2}
    requires forall id :: id in l.next ==> -1 <= l.next[id] && (l.next[id] >= 0 ==> id < l.next[id] <= 2)
    requires forall id :: id in l.prev ==> -1 <= l.prev[id] < id
    ensures Ordered(l, pos, 3) && Anchored(l)
  {
  }
}
