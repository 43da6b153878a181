/** The list shape both generations of the history engine use: records named by an
    integer id, each holding the id of its successor (`next`) and predecessor (`prev`),
    a negative link meaning "none". The tables below are the pure view of those fields;
    a chain is what a traversal from a head id visits. */
module Chains {

  /** `pos` orders the ids so that every `next` link moves strictly forward and every
      position stays below `bound`: a witness that every chain is finite and acyclic. */
  ghost predicate Forward(next: map<int, int>, pos: map<int, nat>, bound: nat) {
    forall id {:trigger next[id]} :: id in next ==>
      id in pos && pos[id] < bound &&
      (next[id] >= 0 ==> next[id] in next && next[id] in pos && pos[id] < pos[next[id]])
  }

  /** Every `prev` link moves strictly backward in the same order. */
  ghost predicate Backward(prev: map<int, int>, pos: map<int, nat>) {
    forall id {:trigger prev[id]} :: id in prev ==>
      id in pos &&
      (prev[id] >= 0 ==> prev[id] in prev && prev[id] in pos && pos[prev[id]] < pos[id])
  }

  /** `w` follows `next` from its first element to its last, through present ids. */
  ghost predicate IsPath(next: map<int, int>, w: seq<int>) {
    (forall k :: 0 <= k < |w| ==> 0 <= w[k] && w[k] in next) &&
    forall k {:trigger next[w[k]]} :: 0 <= k < |w| - 1 ==> next[w[k]] == w[k + 1]
  }

  /** The reference description of a chain: a path that starts at `head` and whose last
      element has no successor; empty exactly when `head` is negative. */
  ghost predicate IsChainFrom(next: map<int, int>, head: int, w: seq<int>) {
    IsPath(next, w) &&
    if head < 0 then w == [] else |w| > 0 && w[0] == head && next[w[|w| - 1]] < 0
  }

  /** A path whose last link leads to the head of a chain extends to a chain. */
  lemma PathThenChain(next: map<int, int>, a: seq<int>, b: seq<int>)
    requires IsPath(next, a) && |a| > 0
    requires IsChainFrom(next, next[a[|a| - 1]], b)
    ensures IsChainFrom(next, a[0], a + b)
  {
    var u := a + b;
    forall k | 0 <= k < |u| - 1 ensures next[u[k]] == u[k + 1] {
      if k < |a| - 1 {
        assert u[k] == a[k] && u[k + 1] == a[k + 1];
      } else if k == |a| - 1 {
        assert u[k] == a[k] && u[k + 1] == b[0];
      } else {
        var j := k - |a|;
        assert u[k] == b[j] && u[k + 1] == b[j + 1];
      }
    }
    assert forall k :: 0 <= k < |u| ==> 0 <= u[k] && u[k] in next by {
      forall k | 0 <= k < |u| ensures 0 <= u[k] && u[k] in next {
        if k >= |a| { assert u[k] == b[k - |a|]; }
      }
    }
    assert u[|u| - 1] == if b == [] then a[|a| - 1] else b[|b| - 1];
  }

  /** The ids visited by following `next` from `head` until a negative link. */
  ghost function Walk(next: map<int, int>, pos: map<int, nat>, bound: nat, head: int): (w: seq<int>)
    requires Forward(next, pos, bound)
    requires head < 0 || (head in next)
    ensures head >= 0 ==> head in pos
    ensures forall k :: 0 <= k < |w| ==> 0 <= w[k] && w[k] in next && w[k] in pos
    ensures head >= 0 ==> forall k :: 0 < k < |w| ==> pos[head] < pos[w[k]]
    ensures head >= 0 ==> |w| > 0 && w[0] == head && next[w[|w| - 1]] < 0
    ensures forall k {:trigger next[w[k]]} :: 0 <= k < |w| - 1 ==> next[w[k]] == w[k + 1]
    ensures head < 0 ==> w == []
    decreases if head < 0 then 0 else bound - pos[head]
  {
    if head < 0 then [] else [head] + Walk(next, pos, bound, next[head])
  }

  /** What a traversal visits meets the reference description of a chain. */
  lemma WalkIsChain(next: map<int, int>, pos: map<int, nat>, bound: nat, head: int)
    requires Forward(next, pos, bound)
    requires head < 0 || head in next
    ensures IsChainFrom(next, head, Walk(next, pos, bound, head))
  {
  }

  /** A chain visits no id twice. */
  lemma {:induction false} WalkDistinct(next: map<int, int>, pos: map<int, nat>, bound: nat, head: int)
    requires Forward(next, pos, bound)
    requires head < 0 || head in next
    ensures var w := Walk(next, pos, bound, head);
      forall i, j :: 0 <= i < j < |w| ==> w[i] != w[j]
    decreases if head < 0 then 0 else bound - pos[head]
  {
    if head >= 0 {
      var w := Walk(next, pos, bound, head);
      var n := next[head];
      WalkDistinct(next, pos, bound, n);
      assert w[1..] == Walk(next, pos, bound, n);
      forall i, j | 0 <= i < j < |w| ensures w[i] != w[j] {
        if i == 0 {
          assert pos[w[i]] < pos[w[j]];
        } else {
          assert w[i] == w[1..][i - 1] && w[j] == w[1..][j - 1];
        }
      }
    }
  }

  /** The traversal meets the reference description (when ids are non-negative), and it
      is the only sequence that does: whatever a loop that follows `next` collects is Walk. */
  lemma {:induction false} WalkUnique(next: map<int, int>, pos: map<int, nat>, bound: nat, head: int, w: seq<int>)
    requires Forward(next, pos, bound)
    requires head < 0 || head in next
    requires IsChainFrom(next, head, w)
    ensures w == Walk(next, pos, bound, head)
    decreases |w|
  {
    if head >= 0 && |w| > 1 {
      assert next[w[0]] == w[1];
      WalkUnique(next, pos, bound, w[1], w[1..]);
    }
  }

  /** The rest of a chain from its `k`-th element is the chain from that element. */
  lemma WalkSuffix(next: map<int, int>, pos: map<int, nat>, bound: nat, head: int, k: nat)
    requires Forward(next, pos, bound)
    requires head < 0 || head in next
    requires k < |Walk(next, pos, bound, head)|
    ensures var w := Walk(next, pos, bound, head);
      w[k..] == Walk(next, pos, bound, w[k])
  {
    var w := Walk(next, pos, bound, head);
    WalkIsChain(next, pos, bound, head);
    SuffixIsChain(next, head, w, k);
    WalkUnique(next, pos, bound, w[k], w[k..]);
  }

  /** The rest of a chain from its `k`-th element is a chain from that element. */
  lemma SuffixIsChain(next: map<int, int>, head: int, w: seq<int>, k: nat)
    requires IsChainFrom(next, head, w) && k < |w|
    ensures IsChainFrom(next, w[k], w[k..])
  {
    var u := w[k..];
    forall i | 0 <= i < |u| - 1 ensures next[u[i]] == u[i + 1] {
      assert u[i] == w[k + i] && u[i + 1] == w[k + i + 1];
    }
    assert forall i :: 0 <= i < |u| ==> u[i] == w[k + i];
  }

  /** A chain is its head followed by the chain from the head's successor. */
  lemma WalkStep(next: map<int, int>, pos: map<int, nat>, bound: nat, head: int)
    requires Forward(next, pos, bound)
    requires head >= 0 && head in next
    ensures Walk(next, pos, bound, head) == [head] + Walk(next, pos, bound, next[head])
  {
    var w := Walk(next, pos, bound, head);
    if |w| > 1 {
      WalkSuffix(next, pos, bound, head, 1);
    }
  }

  /** A traversal that has visited `visited` and stands at `head` moves one step on. */
  lemma WalkAdvance(next: map<int, int>, pos: map<int, nat>, bound: nat, visited: seq<int>, head: int)
    requires Forward(next, pos, bound)
    requires head >= 0 && head in next
    ensures visited + Walk(next, pos, bound, head) == (visited + [head]) + Walk(next, pos, bound, next[head])
  {
    WalkStep(next, pos, bound, head);
  }

  /** A chain depends only on the links of the ids it visits: a second table (with its own
      order witness) that agrees on them yields the same chain. */
  lemma WalkAgree(next: map<int, int>, pos: map<int, nat>, bound: nat,
                  next': map<int, int>, pos': map<int, nat>, bound': nat, head: int)
    requires Forward(next, pos, bound) && Forward(next', pos', bound')
    requires head < 0 || (head in next && head in next')
    requires forall id :: id in Walk(next, pos, bound, head) ==> id in next' && next'[id] == next[id]
    ensures Walk(next', pos', bound', head) == Walk(next, pos, bound, head)
  {
    var w := Walk(next, pos, bound, head);
    WalkIsChain(next, pos, bound, head);
    ChainAgree(next, next', head, w);
    WalkUnique(next', pos', bound', head, w);
  }

  /** A chain stays a chain in a second table that agrees on the links of its ids. */
  lemma ChainAgree(next: map<int, int>, next': map<int, int>, head: int, w: seq<int>)
    requires IsChainFrom(next, head, w)
    requires forall id :: id in w ==> id in next' && next'[id] == next[id]
    ensures IsChainFrom(next', head, w)
  {
    assert forall k :: 0 <= k < |w| ==> w[k] in w;
  }

  /** Redirecting the link of `p` to `v`: chains that do not pass through `p` are
      unchanged; a chain through `p` keeps its part up to `p` and continues with the chain
      from `v`. */
  lemma {:induction false} WalkRedirect(next: map<int, int>, pos: map<int, nat>, bound: nat,
                                       pos': map<int, nat>, bound': nat, head: int, p: int, v: int)
    requires Forward(next, pos, bound)
    requires p in next && (v < 0 || v in next)
    requires Forward(next[p := v], pos', bound')
    requires head < 0 || head in next
    ensures var w := Walk(next, pos, bound, head);
      Walk(next[p := v], pos', bound', head) ==
        if p in w then TakeThrough(w, p) + Walk(next[p := v], pos', bound', v) else w
  {
    var w := Walk(next, pos, bound, head);
    var next' := next[p := v];
    WalkDistinct(next, pos, bound, head);
    if p !in w {
      WalkAgree(next, pos, bound, next', pos', bound', head);
    } else {
      var k := TakeThroughAt(w, p);
      var u := w[..k + 1] + Walk(next', pos', bound', v);
      SplicedIsChain(next, pos, bound, pos', bound', head, p, v, k);
      WalkUnique(next', pos', bound', head, u);
    }
  }

  /** The chain up to `p` followed by the chain from `v` is a chain once `p` links to `v`. */
  lemma SplicedIsChain(next: map<int, int>, pos: map<int, nat>, bound: nat,
                       pos': map<int, nat>, bound': nat, head: int, p: int, v: int, k: nat)
    requires Forward(next, pos, bound)
    requires p in next && (v < 0 || v in next)
    requires Forward(next[p := v], pos', bound')
    requires head < 0 || head in next
    requires var w := Walk(next, pos, bound, head); k < |w| && w[k] == p && p !in w[..k]
    ensures IsChainFrom(next[p := v], head, Walk(next, pos, bound, head)[..k + 1] + Walk(next[p := v], pos', bound', v))
  {
    var w := Walk(next, pos, bound, head);
    var next' := next[p := v];
    WalkIsChain(next, pos, bound, head);
    PrefixRedirected(next, w, p, v, k);
    WalkIsChain(next', pos', bound', v);
    PathThenChain(next', w[..k + 1], Walk(next', pos', bound', v));
  }

  /** A path up to the first visit of `p` is still a path once `p` links elsewhere. */
  lemma PrefixRedirected(next: map<int, int>, w: seq<int>, p: int, v: int, k: nat)
    requires IsPath(next, w) && k < |w| && w[k] == p && p !in w[..k]
    ensures IsPath(next[p := v], w[..k + 1])
  {
    var a := w[..k + 1];
    forall i | 0 <= i < |a| - 1 ensures next[p := v][a[i]] == a[i + 1] {
      assert w[i] != p by { assert w[..k][i] == w[i]; }
      assert next[w[i]] == w[i + 1];
    }
  }

  /** Adding a record `n` that no link reaches changes no chain from another head. */
  lemma WalkExtend(next: map<int, int>, pos: map<int, nat>, bound: nat,
                   pos': map<int, nat>, bound': nat, head: int, n: int, v: int)
    requires Forward(next, pos, bound)
    requires n !in next
    requires Forward(next[n := v], pos', bound')
    requires head < 0 || head in next
    ensures Walk(next[n := v], pos', bound', head) == Walk(next, pos, bound, head)
    ensures n !in Walk(next, pos, bound, head)
  {
    WalkAgree(next, pos, bound, next[n := v], pos', bound', head);
  }

  /** Linking `p` past `d` to `d`'s successor keeps every link moving forward, provided
      `p` comes before `d`. */
  lemma BypassForward(next: map<int, int>, pos: map<int, nat>, bound: nat, p: int, d: int)
    requires Forward(next, pos, bound)
    requires p in next && d in next && pos[p] < pos[d]
    ensures Forward(next[p := next[d]], pos, bound)
  {
    var next' := next[p := next[d]];
    forall id | id in next'
      ensures id in pos && pos[id] < bound &&
        (next'[id] >= 0 ==> next'[id] in next' && next'[id] in pos && pos[id] < pos[next'[id]])
    {
      if id == p {
        assert next'[id] == next[d];
      } else {
        assert next'[id] == next[id];
      }
    }
  }

  /** Bypassing the element after position `k` of a chain drops exactly that element. */
  lemma WalkBypass(next: map<int, int>, pos: map<int, nat>, bound: nat, head: int, k: nat)
    requires Forward(next, pos, bound)
    requires head < 0 || head in next
    requires var w := Walk(next, pos, bound, head); k + 1 < |w|
    ensures var w := Walk(next, pos, bound, head);
      Forward(next[w[k] := next[w[k + 1]]], pos, bound) &&
      Walk(next[w[k] := next[w[k + 1]]], pos, bound, head) == w[..k + 1] + w[k + 2..]
  {
    var w := Walk(next, pos, bound, head);
    var p, d := w[k], w[k + 1];
    var e := next[d];
    BypassForward(next, pos, bound, p, d);
    var next' := next[p := e];
    WalkRedirect(next, pos, bound, pos, bound, head, p, e);
    WalkDistinct(next, pos, bound, head);
    var k' := TakeThroughAt(w, p);
    assert k' == k;
    WalkSuffix(next, pos, bound, head, k + 1);
    var rest := Walk(next, pos, bound, e);
    assert w[k + 1..] == [d] + rest;
    assert w[k + 2..] == w[k + 1..][1..] == ([d] + rest)[1..] == rest;
    assert p !in rest by {
      if e >= 0 {
        assert pos[p] < pos[d] < pos[e];
      }
    }
    WalkAgree(next, pos, bound, next', pos, bound, e);
  }

  /** Deleting `d` by linking its chain predecessor `p` to `d`'s successor removes exactly
      `d` from the chain. */
  lemma WalkUnlink(next: map<int, int>, pos: map<int, nat>, bound: nat, head: int, p: int, d: int)
    requires Forward(next, pos, bound)
    requires head < 0 || head in next
    requires p in next && next[p] == d && d >= 0
    requires p in Walk(next, pos, bound, head)
    ensures Forward(next[p := next[d]], pos, bound)
    ensures var w := Walk(next, pos, bound, head);
      d in w &&
      Walk(next[p := next[d]], pos, bound, head) == RemoveFirst(w, d)
  {
    var w := Walk(next, pos, bound, head);
    var k := TakeThroughAt(w, p);
    assert k + 1 < |w| && w[k + 1] == d;
    WalkBypass(next, pos, bound, head, k);
    WalkDistinct(next, pos, bound, head);
    assert d !in w[..k + 1] by {
      forall i | 0 <= i < k + 1 ensures w[i] != d {
        assert w[i] == w[..k + 1][i];
      }
    }
    RemoveFirstAt(w, d, k + 1);
  }

  /** The prefix of `s` up to and including the first `x`; all of `s` when there is none. */
  function TakeThrough(s: seq<int>, x: int): (r: seq<int>)
    ensures r <= s
    ensures x !in s ==> r == s
    ensures x in s ==> |r| > 0 && r[|r| - 1] == x && x !in r[..|r| - 1]
  {
    if s == [] then []
    else if s[0] == x then [x]
    else [s[0]] + TakeThrough(s[1..], x)
  }

  /** The position of the first `x`, and the prefix through it. */
  lemma TakeThroughAt(s: seq<int>, x: int) returns (k: nat)
    requires x in s
    ensures k < |s| && s[k] == x && x !in s[..k]
    ensures TakeThrough(s, x) == s[..k + 1]
  {
    var r := TakeThrough(s, x);
    k := |r| - 1;
    assert r == s[..|r|];
  }

  /** `s` with `y` inserted right after the first `x`; `s` itself when there is no `x`. */
  function InsertAfter(s: seq<int>, x: int, y: int): (r: seq<int>)
    ensures x !in s ==> r == s
    ensures |r| == if x in s then |s| + 1 else |s|
  {
    if s == [] then []
    else if s[0] == x then [x, y] + s[1..]
    else [s[0]] + InsertAfter(s[1..], x, y)
  }

  /** With an `x` in `s`, inserting `y` after it splits `s` right after its first `x`. */
  lemma {:induction false} InsertAfterSplit(s: seq<int>, x: int, y: int)
    requires x in s
    ensures InsertAfter(s, x, y) == TakeThrough(s, x) + [y] + s[|TakeThrough(s, x)|..]
  {
    if s[0] == x {
      assert TakeThrough(s, x) == [x];
      assert [x, y] + s[1..] == [x] + [y] + s[1..];
    } else {
      var t, p := s[1..], TakeThrough(s[1..], x);
      TakeThroughTail(s, x);
      InsertAfterSplit(t, x, y);
      Regroup(s[0], p, y, t[|p|..]);
    }
  }

  /** Prepending to a split sequence prepends to its first part. */
  lemma Regroup(a: int, p: seq<int>, y: int, q: seq<int>)
    ensures [a] + (p + [y] + q) == ([a] + p) + [y] + q
  {
  }

  /** Past a first element other than `x`, the prefix through `x` and what follows it
      are those of the tail. */
  lemma TakeThroughTail(s: seq<int>, x: int)
    requires s != [] && s[0] != x
    ensures (x in s <==> x in s[1..]) && TakeThrough(s, x) == [s[0]] + TakeThrough(s[1..], x)
    ensures s[|TakeThrough(s, x)|..] == s[1..][|TakeThrough(s[1..], x)|..]
  {
    assert s == [s[0]] + s[1..];
  }

  /** `s` without its first `x`; `s` itself when there is no `x`. */
  function RemoveFirst(s: seq<int>, x: int): (r: seq<int>)
    ensures x !in s ==> r == s
    ensures x in s ==> |r| == |s| - 1
  {
    if s == [] then []
    else if s[0] == x then s[1..]
    else [s[0]] + RemoveFirst(s[1..], x)
  }

  /** Removing the first `x`, found at `k`, closes the gap at `k`. */
  lemma {:induction false} RemoveFirstAt(s: seq<int>, x: int, k: nat)
    requires k < |s| && s[k] == x && x !in s[..k]
    ensures RemoveFirst(s, x) == s[..k] + s[k + 1..]
  {
    if k > 0 {
      assert s[0] != x by { assert s[..k][0] == s[0]; }
      assert s[1..][..k - 1] == s[1..k];
      assert x !in s[1..k] by {
        forall i | 0 <= i < k - 1 ensures s[1..k][i] != x { assert s[1..k][i] == s[..k][i + 1]; }
      }
      RemoveFirstAt(s[1..], x, k - 1);
      assert s[..k] == [s[0]] + s[1..][..k - 1];
      assert s[k + 1..] == s[1..][k..];
    }
  }

  /** Positions after making room right after position `at`. */
  function ShiftAfter(pos: map<int, nat>, at: nat): (pos': map<int, nat>)
    ensures pos'.Keys == pos.Keys
    ensures forall id :: id in pos ==> pos'[id] == (if pos[id] > at then pos[id] + 1 else pos[id])
  {
    map id | id in pos :: if pos[id] > at then pos[id] + 1 else pos[id]
  }

  /** Linking a detached record `m` in right after `x` (and before `x`'s old successor)
      keeps every link moving forward, once `m` is given the position right after `x`. */
  lemma InsertLinks(next: map<int, int>, prev: map<int, int>, pos: map<int, nat>, bound: nat, x: int, m: int)
    requires Forward(next, pos, bound) && Backward(prev, pos)
    requires next.Keys == prev.Keys
    requires x in next && m in next && x != m
    requires next[m] < 0 && prev[m] < 0
    requires forall id :: id in next ==> next[id] != m && prev[id] != m
    ensures var y := next[x];
      var pos' := ShiftAfter(pos, pos[x])[m := pos[x] + 1];
      Forward(next[m := y], pos', bound + 1) &&
      Forward(next[m := y][x := m], pos', bound + 1) &&
      Backward(if y >= 0 then prev[m := x][y := m] else prev[m := x], pos')
  {
  }

  /** Linking a record `m` that no link reaches in right after `x` puts it right after `x`
      in the chain from any other head, and changes that chain in no other way. */
  lemma WalkInsert(next: map<int, int>, pos: map<int, nat>, bound: nat,
                   pos': map<int, nat>, bound': nat, head: int, x: int, m: int)
    requires Forward(next, pos, bound)
    requires x in next && 0 <= m && m in next && x != m && next[m] < 0
    requires forall id :: id in next ==> next[id] != m
    requires Forward(next[m := next[x]][x := m], pos', bound')
    requires head < 0 || head in next
    requires head != m
    ensures Walk(next[m := next[x]][x := m], pos', bound', head) ==
      InsertAfter(Walk(next, pos, bound, head), x, m)
  {
    var next' := next[m := next[x]][x := m];
    var w := Walk(next, pos, bound, head);
    UnlinkedNotWalked(next, pos, bound, head, m);
    if x !in w {
      WalkAgree(next, pos, bound, next', pos', bound', head);
    } else {
      var k := TakeThroughAt(w, x);
      WalkInsertAt(next, pos, bound, pos', bound', head, x, m, k);
    }
  }

  /** A record no link reaches is on no chain but its own. */
  lemma UnlinkedNotWalked(next: map<int, int>, pos: map<int, nat>, bound: nat, head: int, m: int)
    requires Forward(next, pos, bound)
    requires head < 0 || head in next
    requires head != m
    requires forall id :: id in next ==> next[id] != m
    ensures m !in Walk(next, pos, bound, head)
  {
    var w := Walk(next, pos, bound, head);
    forall k | 0 <= k < |w| ensures w[k] != m {
      if k > 0 { assert next[w[k - 1]] == w[k]; }
    }
  }

  /** The chain through `x`, its `k`-th element, once `m` is linked in after `x`. */
  lemma WalkInsertAt(next: map<int, int>, pos: map<int, nat>, bound: nat,
                     pos': map<int, nat>, bound': nat, head: int, x: int, m: int, k: nat)
    requires Forward(next, pos, bound)
    requires x in next && 0 <= m && m in next && next[m] < 0
    requires Forward(next[m := next[x]][x := m], pos', bound')
    requires head < 0 || head in next
    requires var w := Walk(next, pos, bound, head); m !in w && k < |w| && w[k] == x && TakeThrough(w, x) == w[..k + 1]
    ensures var w := Walk(next, pos, bound, head);
      Walk(next[m := next[x]][x := m], pos', bound', head) == InsertAfter(w, x, m)
  {
    var next' := next[m := next[x]][x := m];
    var w := Walk(next, pos, bound, head);
    WalkDistinct(next, pos, bound, head);
    var u := w[..k + 1] + [m] + w[k + 1..];
    InsertAfterSplit(w, x, m);
    assert InsertAfter(w, x, m) == u;
    assert IsChainFrom(next, head, w);
    InsertedIsChain(next, head, w, x, m, k);
    WalkUnique(next', pos', bound', head, u);
  }

  /** Pointing `p` past `d`, where `p` comes before `d` in the order: a chain through `p`
      keeps its part up to `p` and continues with the chain that follows `d`; other
      chains are unchanged. */
  lemma WalkDelete(next: map<int, int>, pos: map<int, nat>, bound: nat, head: int, p: int, d: int)
    requires Forward(next, pos, bound)
    requires head < 0 || head in next
    requires p in next && d in next && pos[p] < pos[d]
    ensures Forward(next[p := next[d]], pos, bound)
    ensures var w := Walk(next, pos, bound, head);
      Walk(next[p := next[d]], pos, bound, head) ==
        if p in w then TakeThrough(w, p) + Walk(next, pos, bound, next[d]) else w
  {
    var v := next[d];
    BypassForward(next, pos, bound, p, d);
    WalkRedirect(next, pos, bound, pos, bound, head, p, v);
    if v >= 0 {
      var u := Walk(next, pos, bound, v);
      forall k | 0 <= k < |u| ensures u[k] != p {
        assert pos[p] < pos[u[k]];
      }
      WalkAgree(next, pos, bound, next[p := v], pos, bound, v);
    }
  }

  /** A chain with `m` linked in after its `k`-th element `x`. */
  lemma InsertedIsChain(next: map<int, int>, head: int, w: seq<int>, x: int, m: int, k: nat)
    requires IsChainFrom(next, head, w) && 0 <= m && m in next && next[m] < 0 && m !in w
    requires forall i, j :: 0 <= i < j < |w| ==> w[i] != w[j]
    requires k < |w| && w[k] == x
    ensures IsChainFrom(next[m := next[x]][x := m], head, w[..k + 1] + [m] + w[k + 1..])
  {
    var next' := next[m := next[x]][x := m];
    var u := w[..k + 1] + [m] + w[k + 1..];
    InsertedIsPath(next, w, x, m, k);
    if k + 1 < |w| {
      var last := w[|w| - 1];
      var front, back := w[..k + 1] + [m], w[k + 1..];
      assert u == front + back && |front| == k + 2;
      assert back[|back| - 1] == last;
      assert u[|u| - 1] == last;
      assert last != x && last != m;
    } else {
      assert u[|u| - 1] == m;
    }
  }

  /** The links of a path with `m` linked in after its `k`-th element `x`. */
  lemma InsertedIsPath(next: map<int, int>, w: seq<int>, x: int, m: int, k: nat)
    requires IsPath(next, w) && 0 <= m && m in next && m !in w
    requires forall i, j :: 0 <= i < j < |w| ==> w[i] != w[j]
    requires k < |w| && w[k] == x
    ensures IsPath(next[m := next[x]][x := m], w[..k + 1] + [m] + w[k + 1..])
  {
    var next' := next[m := next[x]][x := m];
    var u := w[..k + 1] + [m] + w[k + 1..];
    forall i | 0 <= i < |u| ensures 0 <= u[i] && u[i] in next' {
      if i <= k { assert u[i] == w[i]; } else if i > k + 1 { assert u[i] == w[i - 1]; }
    }
    forall i | 0 <= i < |u| - 1 ensures next'[u[i]] == u[i + 1] {
      InsertedStep(next, w, x, m, k, i);
    }
  }

  /** The `i`-th link of the list with `m` inserted after its `k`-th element. */
  lemma InsertedStep(next: map<int, int>, w: seq<int>, x: int, m: int, k: nat, i: nat)
    requires IsPath(next, w) && 0 <= m && m in next && m !in w
    requires forall i, j :: 0 <= i < j < |w| ==> w[i] != w[j]
    requires k < |w| && w[k] == x && i < |w|
    ensures var u := w[..k + 1] + [m] + w[k + 1..];
      u[i] in next[m := next[x]][x := m] && next[m := next[x]][x := m][u[i]] == u[i + 1]
  {
    var u := w[..k + 1] + [m] + w[k + 1..];
    if i < k {
      assert u[i] == w[i] && u[i + 1] == w[i + 1];
      assert w[i] != x && w[i] != m;
      assert next[w[i]] == w[i + 1];
    } else if i == k {
      assert u[i] == x && u[i + 1] == m;
    } else if i == k + 1 {
      assert u[i] == m && u[i + 1] == w[k + 1];
      assert next[w[k]] == w[k + 1];
    } else {
      assert u[i] == w[i - 1] && u[i + 1] == w[i];
      assert w[i - 1] != x && w[i - 1] != m;
      assert next[w[i - 1]] == w[i];
    }
  }

  /** The `prev` links along `w` mirror its order: the first element has no predecessor
      and every other names the element before it. */
  ghost predicate Mirrored(prev: map<int, int>, w: seq<int>) {
    forall k :: 0 <= k < |w| ==> w[k] in prev && prev[w[k]] == (if k == 0 then -1 else w[k - 1])
  }

  /** A chain stays mirrored when the back link of an ID off the chain changes. */
  lemma MirroredOff(prev: map<int, int>, w: seq<int>, m: int, v: int)
    requires Mirrored(prev, w) && m !in w
    ensures Mirrored(prev[m := v], w)
  {
    forall k | 0 <= k < |w| ensures w[k] in prev[m := v] && prev[m := v][w[k]] == (if k == 0 then -1 else w[k - 1]) {
      assert w[k] != m;
    }
  }

  /** What a mirrored chain says about its `i`-th element. */
  lemma MirroredAt(prev: map<int, int>, w: seq<int>, i: nat)
    requires Mirrored(prev, w) && i < |w|
    ensures w[i] in prev && prev[w[i]] == (if i == 0 then -1 else w[i - 1])
  {
  }

  /** Linking `m` in after the `k`-th element `x` of a mirrored chain, and pointing the
      `prev` of `m` and of `x`'s old successor `y` (if any) accordingly, keeps it mirrored. */
  lemma {:induction false} MirroredInsert(prev: map<int, int>, w: seq<int>, k: nat, m: int, y: int)
    requires Mirrored(prev, w) && m !in w
    requires forall i :: 0 <= i < |w| ==> w[i] >= 0
    requires forall i, j :: 0 <= i < j < |w| ==> w[i] != w[j]
    requires k < |w|
    requires k + 1 < |w| ==> y == w[k + 1]
    requires k + 1 == |w| ==> y < 0
    ensures Mirrored(if y >= 0 then prev[m := w[k]][y := m] else prev[m := w[k]], w[..k + 1] + [m] + w[k + 1..])
  {
    var prev' := if y >= 0 then prev[m := w[k]][y := m] else prev[m := w[k]];
    var u := w[..k + 1] + [m] + w[k + 1..];
    forall i | 0 <= i < |u| ensures u[i] in prev' && prev'[u[i]] == (if i == 0 then -1 else u[i - 1]) {
      if i <= k {
        assert u[i] == w[i];
        if i > 0 { assert u[i - 1] == w[i - 1]; }
        assert w[i] != m && w[i] != y;
        assert prev'[w[i]] == prev[w[i]];
        MirroredAt(prev, w, i);
      } else if i == k + 1 {
        assert u[i] == m && u[i - 1] == w[k];
        assert y >= 0 ==> y != m;
      } else if i == k + 2 {
        assert u[i] == w[k + 1] && u[i - 1] == m;
        assert y == w[k + 1] && y >= 0;
      } else {
        assert u[i] == w[i - 1] && u[i - 1] == w[i - 2];
        assert w[i - 1] != m && w[i - 1] != y;
        assert prev'[w[i - 1]] == prev[w[i - 1]];
        MirroredAt(prev, w, i - 1);
      }
    }
    assert Mirrored(prev', u);
  }

  /** Dropping the `k`-th element of a mirrored chain, and pointing the `prev` of its
      successor `s` (if any) at its predecessor, keeps the rest mirrored. */
  lemma {:induction false} MirroredRemove(prev: map<int, int>, w: seq<int>, k: nat, s: int)
    requires Mirrored(prev, w)
    requires forall i :: 0 <= i < |w| ==> w[i] >= 0
    requires forall i, j :: 0 <= i < j < |w| ==> w[i] != w[j]
    requires k < |w|
    requires k + 1 < |w| ==> s == w[k + 1]
    requires k + 1 == |w| ==> s < 0
    ensures Mirrored(if s >= 0 then prev[s := prev[w[k]]] else prev, w[..k] + w[k + 1..])
  {
    var prev' := if s >= 0 then prev[s := prev[w[k]]] else prev;
    var u := w[..k] + w[k + 1..];
    forall i | 0 <= i < |u| ensures u[i] in prev' && prev'[u[i]] == (if i == 0 then -1 else u[i - 1]) {
      if i < k {
        assert u[i] == w[i];
        if i > 0 { assert u[i - 1] == w[i - 1]; }
        assert w[i] != s;
        assert prev'[w[i]] == prev[w[i]];
        MirroredAt(prev, w, i);
      } else if i == k {
        assert u[i] == w[k + 1] && s == w[k + 1] && s >= 0;
        MirroredAt(prev, w, k);
        MirroredAt(prev, w, k + 1);
        if i > 0 { assert u[i - 1] == w[k - 1]; }
      } else {
        assert u[i] == w[i + 1] && u[i - 1] == w[i];
        assert w[i + 1] != s;
        assert prev'[w[i + 1]] == prev[w[i + 1]];
        MirroredAt(prev, w, i + 1);
      }
    }
    assert Mirrored(prev', u);
  }
}
