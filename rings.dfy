/**
 * The shape of a ring of links, stated on plain values: `r` lists the node
 * ids of one cycle in forward order, `next` and `prev` are the link fields of
 * the node arena.  The lemmas here are the link surgery of LinkIn and
 * LinkOut and the role moves of the markers, each proved once on values.
 */
module Rings {
  import opened Seqs

  /** Element `k` of `s`.  Distinct below is stated on this term so that its
      quantifier fires only where a proof names positions through At. */
  ghost function At(s: seq<int>, k: int): int
    requires 0 <= k < |s|
  {
    s[k]
  }

  /** No node id occurs twice. */
  ghost predicate Distinct(s: seq<int>)
  {
    forall a, b :: 0 <= a < b < |s| ==> At(s, a) != At(s, b)
  }

  /** Two different positions of a ring without repeats hold different nodes. */
  lemma DistinctAt(s: seq<int>, a: int, b: int)
    requires Distinct(s) && 0 <= a < |s| && 0 <= b < |s| && a != b
    ensures s[a] != s[b]
  {
    if a < b {
      assert At(s, a) != At(s, b);
    } else {
      assert At(s, b) != At(s, a);
    }
  }

  /** `r` is a list of distinct ids of an arena holding `size` nodes. */
  ghost predicate Nodes(r: seq<int>, size: int)
  {
    Distinct(r) && forall k :: 0 <= k < |r| ==> 0 <= r[k] < size
  }

  /** Following `next` from each node of `r` reaches the following one, and the last wraps to the first. */
  ghost predicate ForwardLinked(r: seq<int>, next: seq<int>)
    requires Nodes(r, |next|)
  {
    && |r| > 0
    && (forall k {:trigger next[r[k]]} :: 0 <= k < |r| - 1 ==> next[r[k]] == r[k + 1])
    && next[r[|r| - 1]] == r[0]
  }

  /** Following `prev` from each node of `r` reaches the preceding one, and the first wraps to the last. */
  ghost predicate BackLinked(r: seq<int>, prev: seq<int>)
    requires Nodes(r, |prev|)
  {
    && |r| > 0
    && (forall k {:trigger prev[r[k]]} :: 0 < k < |r| ==> prev[r[k]] == r[k - 1])
    && prev[r[0]] == r[|r| - 1]
  }

  /** Position of `x` in `s`. */
  ghost function IndexOf(s: seq<int>, x: int): (k: nat)
    requires x in s
    ensures k < |s| && s[k] == x
  {
    var k :| 0 <= k < |s| && s[k] == x; k
  }

  /** In a ring without repeats, a node's position is the one it is found at. */
  lemma IndexOfDistinct(s: seq<int>, k: int)
    requires Distinct(s) && 0 <= k < |s|
    ensures IndexOf(s, s[k]) == k
  {
    var i := IndexOf(s, s[k]);
    if i != k {
      DistinctAt(s, i, k);
    }
  }

  /** The ring position at which a node spliced in just before `c` lands:
      the position of `c`, except that before the first node is the end of
      the listing. */
  ghost function Slot(r: seq<int>, c: int): (j: nat)
    requires c in r
    ensures 0 < j <= |r|
  {
    var k := IndexOf(r, c);
    if k == 0 then |r| else k
  }

  /** The node after position `j` of the cycle `r`, wrapping past the end. */
  function Wrap(r: seq<int>, j: int): int
    requires 0 <= j <= |r| && 0 < |r|
  {
    if j < |r| then r[j] else r[0]
  }

  /** The slot in front of the node at (wrapped) position `m` is `m` itself. */
  lemma SlotWrap(r: seq<int>, m: int)
    requires Distinct(r) && 0 < m <= |r|
    ensures Slot(r, Wrap(r, m)) == m
  {
    IndexOfDistinct(r, if m < |r| then m else 0);
  }

  /** Element `k` of `r` with `x` inserted at `j`. */
  lemma InsertAtIndex(r: seq<int>, j: int, x: int, k: int)
    requires 0 <= j <= |r| && 0 <= k <= |r|
    ensures InsertAt(r, j, x)[k] == if k < j then r[k] else if k == j then x else r[k - 1]
  {
  }

  /** Element `i` of `r` with position `k` deleted. */
  lemma WithoutIndex(r: seq<int>, k: int, i: int)
    requires 0 <= k < |r| && 0 <= i < |r| - 1
    ensures Without(r, k)[i] == if i < k then r[i] else r[i + 1]
  {
  }

  /** Splicing a node that is not on the ring keeps the ring's ids distinct. */
  lemma InsertKeepsNodes(r: seq<int>, size: int, j: int, x: int)
    requires Nodes(r, size) && 0 <= j <= |r| && 0 <= x < size && x !in r
    ensures Nodes(InsertAt(r, j, x), size)
  {
    var r' := InsertAt(r, j, x);
    forall k | 0 <= k < |r'|
      ensures 0 <= r'[k] < size
    {
      InsertAtIndex(r, j, x, k);
    }
    forall a, b | 0 <= a < b < |r'|
      ensures r'[a] != r'[b]
    {
      InsertAtIndex(r, j, x, a);
      InsertAtIndex(r, j, x, b);
      if a != j && b != j {
        DistinctAt(r, if a < j then a else a - 1, if b < j then b else b - 1);
      }
    }
  }

  /** LinkIn at ring position `j`: splicing a detached node `x` between
      `r[j - 1]` and `Wrap(r, j)` (the first node when `j == |r|`) gives a
      ring one longer, linked forward by the two rewritten `next` links. */
  lemma InsertKeepsForward(r: seq<int>, next: seq<int>, j: int, x: int)
    requires Nodes(r, |next|) && 2 <= |r| && ForwardLinked(r, next)
    requires 0 < j <= |r| && 0 <= x < |next| && x !in r
    ensures Nodes(InsertAt(r, j, x), |next|)
    ensures ForwardLinked(InsertAt(r, j, x), next[x := Wrap(r, j)][r[j - 1] := x])
  {
    InsertKeepsNodes(r, |next|, j, x);
    var r' := InsertAt(r, j, x);
    var p, s := r[j - 1], Wrap(r, j);
    var next' := next[x := s][p := x];
    forall k | 0 <= k < |r'| - 1
      ensures next'[r'[k]] == r'[k + 1]
    {
      InsertAtIndex(r, j, x, k);
      InsertAtIndex(r, j, x, k + 1);
      if k < j - 1 {
        DistinctAt(r, k, j - 1);
      } else if k > j {
        DistinctAt(r, k - 1, j - 1);
      }
    }
    InsertAtIndex(r, j, x, |r'| - 1);
    InsertAtIndex(r, j, x, 0);
    if j < |r| {
      DistinctAt(r, |r| - 1, j - 1);
    }
  }

  /** The same splice, linked backward by the two rewritten `prev` links. */
  lemma InsertKeepsBackward(r: seq<int>, prev: seq<int>, j: int, x: int)
    requires Nodes(r, |prev|) && 2 <= |r| && BackLinked(r, prev)
    requires 0 < j <= |r| && 0 <= x < |prev| && x !in r
    ensures Nodes(InsertAt(r, j, x), |prev|)
    ensures BackLinked(InsertAt(r, j, x), prev[x := r[j - 1]][Wrap(r, j) := x])
  {
    InsertKeepsNodes(r, |prev|, j, x);
    var r' := InsertAt(r, j, x);
    var p, s := r[j - 1], Wrap(r, j);
    var prev' := prev[x := p][s := x];
    forall k | 0 < k < |r'|
      ensures prev'[r'[k]] == r'[k - 1]
    {
      InsertAtIndex(r, j, x, k);
      InsertAtIndex(r, j, x, k - 1);
      if k < j {
        DistinctAt(r, k, if j < |r| then j else 0);
      } else if k > j + 1 {
        DistinctAt(r, k - 1, j);
      }
    }
    InsertAtIndex(r, j, x, |r'| - 1);
    InsertAtIndex(r, j, x, 0);
    if j < |r| {
      DistinctAt(r, 0, j);
    }
  }

  /** Deleting a position keeps the ring's ids distinct. */
  lemma WithoutKeepsNodes(r: seq<int>, size: int, k: int)
    requires Nodes(r, size) && 0 <= k < |r|
    ensures Nodes(Without(r, k), size)
    ensures r[k] !in Without(r, k)
  {
    var r' := Without(r, k);
    forall i | 0 <= i < |r'|
      ensures 0 <= r'[i] < size && r'[i] != r[k]
    {
      WithoutIndex(r, k, i);
      DistinctAt(r, if i < k then i else i + 1, k);
    }
    forall a, b | 0 <= a < b < |r'|
      ensures r'[a] != r'[b]
    {
      WithoutIndex(r, k, a);
      WithoutIndex(r, k, b);
      DistinctAt(r, if a < k then a else a + 1, if b < k then b else b + 1);
    }
  }

  /** LinkOut at ring position `k` (never the first): pointing `r[k - 1]`
      forward at the removed node's successor, and giving the removed node
      any `next` of its own, links the ring without it. */
  lemma WithoutKeepsForward(r: seq<int>, next: seq<int>, k: int, cut: int)
    requires Nodes(r, |next|) && 3 <= |r| && ForwardLinked(r, next) && 0 < k < |r|
    ensures Nodes(Without(r, k), |next|)
    ensures ForwardLinked(Without(r, k), next[r[k - 1] := Wrap(r, k + 1)][r[k] := cut])
  {
    WithoutKeepsNodes(r, |next|, k);
    var r' := Without(r, k);
    var x, p, s := r[k], r[k - 1], Wrap(r, k + 1);
    var next' := next[p := s][x := cut];
    forall i | 0 <= i < |r'| - 1
      ensures next'[r'[i]] == r'[i + 1]
    {
      WithoutIndex(r, k, i);
      WithoutIndex(r, k, i + 1);
      if i < k - 1 {
        DistinctAt(r, i, k - 1);
      } else if i >= k {
        DistinctAt(r, i + 1, k - 1);
      }
    }
    WithoutIndex(r, k, |r'| - 1);
    WithoutIndex(r, k, 0);
  }

  /** The same removal, linked backward through `prev`. */
  lemma WithoutKeepsBackward(r: seq<int>, prev: seq<int>, k: int, cut: int)
    requires Nodes(r, |prev|) && 3 <= |r| && BackLinked(r, prev) && 0 < k < |r|
    ensures Nodes(Without(r, k), |prev|)
    ensures BackLinked(Without(r, k), prev[Wrap(r, k + 1) := r[k - 1]][r[k] := cut])
  {
    WithoutKeepsNodes(r, |prev|, k);
    var r' := Without(r, k);
    var x, p, s := r[k], r[k - 1], Wrap(r, k + 1);
    var prev' := prev[s := p][x := cut];
    forall i | 0 < i < |r'|
      ensures prev'[r'[i]] == r'[i - 1]
    {
      WithoutIndex(r, k, i);
      WithoutIndex(r, k, i - 1);
      if i < k {
        DistinctAt(r, i, if k + 1 < |r| then k + 1 else 0);
      } else if i > k {
        DistinctAt(r, i + 1, k + 1);
      }
    }
    WithoutIndex(r, k, |r'| - 1);
    WithoutIndex(r, k, 0);
    if k < |r| - 1 {
      DistinctAt(r, 0, k + 1);
    }
  }

  /** Advancing the first marker one step (PopFront) lists the same cycle from its second node. */
  lemma RotateLeftKeepsRing(r: seq<int>, next: seq<int>, prev: seq<int>)
    requires |next| == |prev| && Nodes(r, |next|) && 2 <= |r|
    requires ForwardLinked(r, next) && BackLinked(r, prev)
    ensures Nodes(r[1..] + [r[0]], |next|)
    ensures ForwardLinked(r[1..] + [r[0]], next) && BackLinked(r[1..] + [r[0]], prev)
  {
    var r' := r[1..] + [r[0]];
    assert forall i :: 0 <= i < |r'| ==> r'[i] == if i < |r| - 1 then r[i + 1] else r[0];
    forall a, b | 0 <= a < b < |r'|
      ensures r'[a] != r'[b]
    {
      DistinctAt(r, if a < |r| - 1 then a + 1 else 0, if b < |r| - 1 then b + 1 else 0);
    }
  }

  /** Retreating the first marker one step (PushFront on a spare node) lists the same cycle from its last node. */
  lemma RotateRightKeepsRing(r: seq<int>, next: seq<int>, prev: seq<int>)
    requires |next| == |prev| && Nodes(r, |next|) && 2 <= |r|
    requires ForwardLinked(r, next) && BackLinked(r, prev)
    ensures Nodes([r[|r| - 1]] + r[..|r| - 1], |next|)
    ensures ForwardLinked([r[|r| - 1]] + r[..|r| - 1], next)
    ensures BackLinked([r[|r| - 1]] + r[..|r| - 1], prev)
  {
    var r' := [r[|r| - 1]] + r[..|r| - 1];
    assert forall i :: 0 <= i < |r'| ==> r'[i] == if i == 0 then r[|r| - 1] else r[i - 1];
    forall a, b | 0 <= a < b < |r'|
      ensures r'[a] != r'[b]
    {
      DistinctAt(r, if a == 0 then |r| - 1 else a - 1, b - 1);
    }
  }

  /** Both link fields of a node of a doubly linked ring point at ring nodes. */
  lemma LinkedBounds(r: seq<int>, next: seq<int>, prev: seq<int>)
    requires |next| == |prev| && Nodes(r, |next|) && ForwardLinked(r, next) && BackLinked(r, prev)
    ensures forall k :: 0 <= k < |r| ==> 0 <= next[r[k]] < |next| && 0 <= prev[r[k]] < |prev|
  {
    forall k | 0 <= k < |r|
      ensures 0 <= next[r[k]] < |next| && 0 <= prev[r[k]] < |prev|
    {
      assert next[r[k]] == Wrap(r, k + 1);
      if k > 0 {
        assert prev[r[k]] == r[k - 1];
      }
    }
  }

  /** Rewriting the links of a node that is not on the ring leaves the ring's links alone. */
  lemma OffRingUpdate(r: seq<int>, next: seq<int>, prev: seq<int>, x: int, a: int, b: int)
    requires |next| == |prev| && Nodes(r, |next|) && ForwardLinked(r, next) && BackLinked(r, prev)
    requires 0 <= x < |next| && x !in r
    ensures ForwardLinked(r, next[x := a]) && BackLinked(r, prev[x := b])
  {
    assert forall k :: 0 <= k < |r| ==> next[x := a][r[k]] == next[r[k]] && prev[x := b][r[k]] == prev[r[k]];
  }

  /** A ring of links in an arena of `size` nodes, listed from `head`, with
      `tail` at position `active + 1`, linked forward, and whose back links at
      least point into the arena. */
  ghost predicate Walked(r: seq<int>, active: int, head: int, tail: int, size: int, next: seq<int>, prev: seq<int>)
  {
    && |next| == size && |prev| == size
    && 0 <= active && active + 2 <= |r|
    && Nodes(r, size)
    && r[0] == head && r[active + 1] == tail
    && ForwardLinked(r, next)
    && (forall k {:trigger next[r[k]]} :: 0 <= k < |r| ==> 0 <= next[r[k]] < size)
    && (forall k {:trigger prev[r[k]]} :: 0 <= k < |r| ==> 0 <= prev[r[k]] < size)
  }

  /** LinkIn on values: splicing the detached node `x` in at position `j`
      keeps the ring walkable and linked both ways; the tail marker moves one
      place on exactly when the node lands at or before it. */
  lemma SpliceIn(r: seq<int>, active: int, head: int, tail: int, size: int, next: seq<int>, prev: seq<int>, j: int, x: int,
                 r': seq<int>, active': int, next': seq<int>, prev': seq<int>)
    requires Walked(r, active, head, tail, size, next, prev) && BackLinked(r, prev)
    requires 0 < j <= |r| && 0 <= x < size && x !in r
    requires r' == InsertAt(r, j, x) && active' == (if j <= active + 1 then active + 1 else active)
    requires next' == next[x := Wrap(r, j)][r[j - 1] := x] && prev' == prev[x := r[j - 1]][Wrap(r, j) := x]
    ensures Walked(r', active', head, tail, size, next', prev') && BackLinked(r', prev')
  {
    InsertKeepsNodes(r, size, j, x);
    InsertKeepsForward(r, next, j, x);
    InsertKeepsBackward(r, prev, j, x);
    InsertAtIndex(r, j, x, 0);
    InsertAtIndex(r, j, x, active' + 1);
    LinkedBounds(r', next', prev');
  }

  /** The four link writes of LinkIn(location, x) on values, `x` being
      detached: `next'` and `prev'` are the link fields they leave.  Before a
      ring node, `x` is spliced in at Slot(r, location); before itself, `x`
      becomes a one-link loop and the ring is untouched. */
  lemma LinkInWrites(r: seq<int>, active: int, head: int, tail: int, size: int, next: seq<int>, prev: seq<int>,
                     location: int, x: int, next': seq<int>, prev': seq<int>) returns (r': seq<int>, active': int)
    requires Walked(r, active, head, tail, size, next, prev) && BackLinked(r, prev)
    requires 0 <= x < size && x !in r && (location in r || location == x)
    requires prev' == prev[x := prev[location]][next[x := location][x] := x]
    requires next' == next[x := location][prev'[x] := x]
    ensures Walked(r', active', head, tail, size, next', prev') && BackLinked(r', prev')
    ensures location == x ==>
      && next' == next[x := x] && prev' == prev[x := x]
      && r' == r && active' == active
    ensures location != x ==>
      var j := Slot(r, location);
      && next' == next[x := location][prev[location] := x]
      && prev' == prev[x := prev[location]][location := x]
      && r' == InsertAt(r, j, x)
      && active' == if j <= active + 1 then active + 1 else active
  {
    if location == x {
      assert next' == next[x := x] && prev' == prev[x := x];
      OffRing(r, active, head, tail, size, next, prev, x, x, x);
      r', active' := r, active;
    } else {
      var j := Slot(r, location);
      assert Wrap(r, j) == location && r[j - 1] == prev[location] by {
        if j < |r| {
          assert prev[r[j]] == r[j - 1];
        } else {
          assert prev[r[0]] == r[|r| - 1];
        }
      }
      r', active' := InsertAt(r, j, x), if j <= active + 1 then active + 1 else active;
      SpliceIn(r, active, head, tail, size, next, prev, j, x, r', active', next', prev');
    }
  }

  /** LinkOut on values: cutting position `k` (neither marker) out keeps the
      ring walkable and linked both ways; the tail marker moves one place
      back exactly when the node was before it. */
  lemma CutOut(r: seq<int>, active: int, head: int, tail: int, size: int, next: seq<int>, prev: seq<int>, k: int, cut: int,
               r': seq<int>, active': int, next': seq<int>, prev': seq<int>)
    requires Walked(r, active, head, tail, size, next, prev) && BackLinked(r, prev)
    requires 0 < k < |r| && k != active + 1
    requires r' == Without(r, k) && active' == (if k <= active then active - 1 else active)
    requires next' == next[r[k - 1] := Wrap(r, k + 1)][r[k] := cut] && prev' == prev[Wrap(r, k + 1) := r[k - 1]][r[k] := cut]
    ensures Walked(r', active', head, tail, size, next', prev') && BackLinked(r', prev')
    ensures r[k] !in r'
  {
    WithoutKeepsNodes(r, size, k);
    WithoutKeepsForward(r, next, k, cut);
    WithoutKeepsBackward(r, prev, k, cut);
    WithoutIndex(r, k, 0);
    WithoutIndex(r, k, active' + 1);
    WalkedIntro(r', active', head, tail, size, next', prev');
  }

  /** The parts of a walkable, back-linked ring, put together. */
  lemma WalkedIntro(r: seq<int>, active: int, head: int, tail: int, size: int, next: seq<int>, prev: seq<int>)
    requires |next| == size && |prev| == size && Nodes(r, size)
    requires 0 <= active && active + 2 <= |r| && r[0] == head && r[active + 1] == tail
    requires ForwardLinked(r, next) && BackLinked(r, prev)
    ensures Walked(r, active, head, tail, size, next, prev) && BackLinked(r, prev)
  {
    LinkedBounds(r, next, prev);
  }

  /** The four link writes of LinkOut(x) on values, `x` being a ring node
      other than the markers: `next'` and `prev'` are the link fields they
      leave.  The neighbours of `x` are joined, `x` gets null links, and the
      ring loses the position of `x`. */
  lemma LinkOutWrites(r: seq<int>, active: int, head: int, tail: int, size: int, next: seq<int>, prev: seq<int>,
                      x: int, next': seq<int>, prev': seq<int>) returns (r': seq<int>, active': int)
    requires Walked(r, active, head, tail, size, next, prev) && BackLinked(r, prev)
    requires x in r && x != head && x != tail
    requires next' == next[prev[x] := next[x]][x := -1]
    requires prev' == prev[next[prev[x] := next[x]][x] := prev[x]][x := -1]
    ensures Walked(r', active', head, tail, size, next', prev') && BackLinked(r', prev')
    ensures prev' == prev[next[x] := prev[x]][x := -1]
    ensures var k := IndexOf(r, x);
      && r' == Without(r, k)
      && active' == (if k <= active then active - 1 else active)
      && x !in r'
  {
    var k := IndexOf(r, x);
    assert k != 0;
    assert prev[x] == r[k - 1] && next[x] == Wrap(r, k + 1);
    DistinctAt(r, k - 1, k);
    r', active' := Without(r, k), if k <= active then active - 1 else active;
    CutOut(r, active, head, tail, size, next, prev, k, -1, r', active', next', prev');
  }

  /** Rewriting the links of a node that is not on the ring keeps the ring as it is. */
  lemma OffRing(r: seq<int>, active: int, head: int, tail: int, size: int, next: seq<int>, prev: seq<int>, x: int, a: int, b: int)
    requires Walked(r, active, head, tail, size, next, prev) && BackLinked(r, prev)
    requires 0 <= x < size && x !in r
    ensures Walked(r, active, head, tail, size, next[x := a], prev[x := b]) && BackLinked(r, prev[x := b])
  {
    OffRingUpdate(r, next, prev, x, a, b);
    LinkedBounds(r, next[x := a], prev[x := b]);
  }

  /** Allocating a detached node at the end of the arena keeps the ring as it is. */
  lemma Grow(r: seq<int>, active: int, head: int, tail: int, size: int, next: seq<int>, prev: seq<int>, a: int, b: int)
    requires Walked(r, active, head, tail, size, next, prev) && BackLinked(r, prev)
    ensures Walked(r, active, head, tail, size + 1, next + [a], prev + [b]) && BackLinked(r, prev + [b])
    ensures size !in r
  {
    assert forall k :: 0 <= k < |r| ==> (next + [a])[r[k]] == next[r[k]] && (prev + [b])[r[k]] == prev[r[k]];
  }

  /** Moving the tail marker to another position of the same ring. */
  lemma MoveTail(r: seq<int>, active: int, head: int, tail: int, size: int, next: seq<int>, prev: seq<int>,
                 active': int, tail': int)
    requires Walked(r, active, head, tail, size, next, prev)
    requires 0 <= active' && active' + 2 <= |r| && tail' == r[active' + 1]
    ensures Walked(r, active', head, tail', size, next, prev)
  {
  }

  /** PushFront on a spare link: the head marker retreats onto the last
      link of the listing, which becomes the first, and the tail marker is
      one position further from it. */
  lemma RetreatHead(r: seq<int>, active: int, head: int, tail: int, size: int, next: seq<int>, prev: seq<int>,
                    r': seq<int>, head': int)
    requires Walked(r, active, head, tail, size, next, prev) && BackLinked(r, prev)
    requires active + 3 <= |r| && r' == [r[|r| - 1]] + r[..|r| - 1] && head' == r[|r| - 1]
    ensures Walked(r', active + 1, head', tail, size, next, prev) && BackLinked(r', prev)
  {
    RotateRightKeepsRing(r, next, prev);
    assert r'[active + 2] == r[active + 1];
    LinkedBounds(r', next, prev);
  }

  /** PopFront: the head marker advances onto the first element, and the
      listing starts one link later. */
  lemma AdvanceHead(r: seq<int>, active: int, head: int, tail: int, size: int, next: seq<int>, prev: seq<int>,
                    r': seq<int>, head': int)
    requires Walked(r, active, head, tail, size, next, prev) && BackLinked(r, prev)
    requires 1 <= active && r' == r[1..] + [r[0]] && head' == r[1]
    ensures Walked(r', active - 1, head', tail, size, next, prev) && BackLinked(r', prev)
  {
    RotateLeftKeepsRing(r, next, prev);
    assert r'[active] == r[active + 1];
    LinkedBounds(r', next, prev);
  }

  /** The values read along positions 1..n of `r` after the node `x` is
      spliced in at position `j`: the value of `x` joins them, at index
      `j - 1`, exactly when `x` lands among them. */
  lemma GatherSplice<T>(vals: seq<T>, r: seq<int>, n: int, j: int, x: int, r': seq<int>, n': int)
    requires 0 <= n && n + 2 <= |r| && 0 < j <= |r| && 0 <= x < |vals|
    requires forall k :: 0 <= k < |r| ==> 0 <= r[k] < |vals|
    requires r' == InsertAt(r, j, x) && n' == (if j <= n + 1 then n + 1 else n)
    ensures forall k :: 0 <= k < |r'| ==> 0 <= r'[k] < |vals|
    ensures Gather(vals, r'[1..n' + 1]) ==
      if j <= n + 1 then InsertAt(Gather(vals, r[1..n + 1]), j - 1, vals[x]) else Gather(vals, r[1..n + 1])
  {
    forall k | 0 <= k < |r'|
      ensures 0 <= r'[k] < |vals|
    {
      InsertAtIndex(r, j, x, k);
    }
    var ids := r[1..n + 1];
    if j <= n + 1 {
      InsertAtSlice(r, j, x, 1, n + 1);
      GatherInsertAt(vals, ids, j - 1, x);
    } else {
      InsertAtSliceBefore(r, j, x, 1, n + 1);
    }
  }

  /** The values read along positions 1..n of `r` after position `k` (not
      position `n + 1`) is cut out: the value at `k` leaves them exactly when
      `k` was among them. */
  lemma GatherCut<T>(vals: seq<T>, r: seq<int>, n: int, k: int, r': seq<int>, n': int)
    requires 0 <= n && n + 2 <= |r| && 0 < k < |r| && k != n + 1
    requires forall i :: 0 <= i < |r| ==> 0 <= r[i] < |vals|
    requires r' == Without(r, k) && n' == (if k <= n then n - 1 else n)
    ensures forall i :: 0 <= i < |r'| ==> 0 <= r'[i] < |vals|
    ensures Gather(vals, r'[1..n' + 1]) ==
      if k <= n then Without(Gather(vals, r[1..n + 1]), k - 1) else Gather(vals, r[1..n + 1])
  {
    forall i | 0 <= i < |r'|
      ensures 0 <= r'[i] < |vals|
    {
      WithoutIndex(r, k, i);
    }
    var ids := r[1..n + 1];
    if k <= n {
      WithoutSlice(r, k, 1, n + 1);
      GatherWithout(vals, ids, k - 1);
    } else {
      WithoutSliceBefore(r, k, 1, n + 1);
    }
  }

  /** Storing `t` at position `n + 1` and reading positions 1..n + 1 appends
      `t` to what positions 1..n held. */
  lemma GatherAdvance<T>(vals: seq<T>, r: seq<int>, n: int, t: T)
    requires Distinct(r) && 0 <= n && n + 2 <= |r|
    requires forall k :: 0 <= k < |r| ==> 0 <= r[k] < |vals|
    ensures Gather(vals[r[n + 1] := t], r[1..n + 2]) == Gather(vals, r[1..n + 1]) + [t]
  {
    assert r[1..n + 2] == r[1..n + 1] + [r[n + 1]];
    forall i | 1 <= i <= n
      ensures vals[r[n + 1] := t][r[i]] == vals[r[i]]
    {
      DistinctAt(r, i, n + 1);
    }
    GatherSame(vals, vals[r[n + 1] := t], r[1..n + 1]);
    GatherConcat(vals[r[n + 1] := t], r[1..n + 1], [r[n + 1]]);
  }

  /** Storing `t` at the first node of `r` and listing the cycle from its
      last node instead: positions 1..n + 1 of the new listing read `t`
      followed by what positions 1..n of `r` held. */
  lemma GatherRetreat<T>(vals: seq<T>, r: seq<int>, n: int, t: T, r': seq<int>)
    requires Distinct(r) && 0 <= n && n + 3 <= |r|
    requires forall k :: 0 <= k < |r| ==> 0 <= r[k] < |vals|
    requires r' == [r[|r| - 1]] + r[..|r| - 1]
    ensures Gather(vals[r[0] := t], r'[1..n + 2]) == [t] + Gather(vals, r[1..n + 1])
  {
    assert r'[1..] == r[..|r| - 1];
    assert r'[1..n + 2] == [r[0]] + r[1..n + 1];
    forall i | 1 <= i <= n
      ensures vals[r[0] := t][r[i]] == vals[r[i]]
    {
      DistinctAt(r, i, 0);
    }
    GatherSame(vals, vals[r[0] := t], r[1..n + 1]);
    GatherConcat(vals[r[0] := t], [r[0]], r[1..n + 1]);
  }
}
