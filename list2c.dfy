/**
 * alt2c::List<T>: a doubly-linked list kept as one circular ring of links.
 * Two marker links, `head` ("one before the first") and `tail` ("one past
 * the last"), split the ring into the active arc `head.next .. tail` (the
 * elements) and the free arc `tail.next .. head` (links kept for reuse; no
 * link is ever freed while the list lives).
 *
 * The links live in an arena: `tval`, `next` and `prev` hold the fields
 * Tval_, next_ and prev_ of link number i at index i, and a link address is
 * an index (`Null` is the null address).  Allocating a link appends to the
 * arena.  The ghost `ring` lists the cycle starting at `head`, and the ghost
 * `active` says where `tail` sits on it.
 */
module Alt2c {
  import opened Seqs
  import opened Rings

  /** The null link address. */
  const Null: int := -1

  /** A cursor on one link of a list.  ConstListIterator and ListIterator
      share this representation: ListIterator differs only by its mutable
      dereference (List.Store).  Two cursors are equal exactly when they
      designate the same link, which is equality of this datatype. */
  datatype Iterator = Iterator(curr: int) {
    /** Valid(): the cursor is not null. */
    predicate Valid()
    {
      curr != Null
    }
  }

  /** One line written by CheckLinks, with the position (from head) of the link. */
  datatype LinkFault =
    | ForwardFault(link: nat)
    | ReverseFault(link: nat)
    | CountMismatch(count: nat, size: nat, excess: nat)

  /** What Front and Back hand back: the value, and whether the "called on empty list" error was reported. */
  datatype Fetched<T> = Fetched(emptyError: bool, value: T)

  /** operator==: both lists hold the same elements in the same order,
      compared pairwise from Begin() until either list reaches End(). */
  method Equal<T(==,0)>(x1: List<T>, x2: List<T>) returns (b: bool)
    requires x1.Valid() && x2.Valid()
    ensures b <==> x1.Elements() == x2.Elements()
  {
    ghost var e1, e2 := x1.Elements(), x2.Elements();
    var i1, i2 := x1.Begin(), x2.Begin();
    ghost var k := 0;
    while i1 != x1.End() && i2 != x2.End()
      invariant 0 <= k <= |e1| && k <= |e2|
      invariant i1 == Iterator(x1.ring[k + 1])
      invariant i2 == Iterator(x2.ring[k + 1])
      invariant forall j :: 0 <= j < k ==> e1[j] == e2[j]
      decreases |e1| - k
    {
      assert k < |e1| && k < |e2|;
      assert x1.Deref(i1) == e1[k] && x2.Deref(i2) == e2[k];
      if x1.Deref(i1) != x2.Deref(i2) {
        return false;
      }
      x1.NextOnRing(i1, k + 1);
      x2.NextOnRing(i2, k + 1);
      i1, i2 := x1.Next(i1), x2.Next(i2);
      k := k + 1;
    }
    if k < |e1| {
      DistinctAt(x1.ring, k + 1, x1.active + 1);
    }
    if k < |e2| {
      DistinctAt(x2.ring, k + 1, x2.active + 1);
    }
    if i1 != x1.End() || i2 != x2.End() {
      return false;
    }
    return true;
  }

  /** operator!=: the negation of operator==. */
  method NotEqual<T(==,0)>(x1: List<T>, x2: List<T>) returns (b: bool)
    requires x1.Valid() && x2.Valid()
    ensures b <==> x1.Elements() != x2.Elements()
  {
    var eq := Equal(x1, x2);
    return !eq;
  }

  class List<T(==,0)> {
    var tval: seq<T>
    var next: seq<int>
    var prev: seq<int>
    var head: int
    var tail: int

    /** The cycle of links, listed forward from `head`. */
    ghost var ring: seq<int>
    /** Number of links strictly between `head` and `tail`: `tail == ring[active + 1]`. */
    ghost var active: nat

    /** The forward links form the ring with both markers on it; every `prev`
        on the ring at least points at some link.  This is all that the
        traversals Size, Excess and CheckLinks rely on. */
    ghost predicate Walkable()
      reads this
    {
      |tval| == |next| && Walked(ring, active, head, tail, |tval|, next, prev)
    }

    /** The object invariant: the ring is linked both ways. */
    ghost predicate Valid()
      reads this
    {
      Walkable() && BackLinked(ring, prev)
    }

    /** The visible elements, from the first to the last. */
    ghost function Elements(): (s: seq<T>)
      reads this
      requires Walkable()
      ensures |s| == active
    {
      Gather(tval, ring[1..active + 1])
    }

    /** A link off the ring whose own links point back at itself: what
        LinkIn leaves when a link is spliced in before itself. */
    ghost predicate Loose(x: int)
      reads this
    {
      0 <= x < |tval| && x < |next| && x < |prev| && x !in ring && next[x] == x && prev[x] == x
    }

    /** Number of links on the free arc. */
    ghost function FreeCount(): nat
      reads this
      requires Walkable()
    {
      |ring| - active - 2
    }

    /** Default constructor: an empty ring of the two markers. */
    constructor ()
      ensures Valid() && Elements() == [] && FreeCount() == 0
      ensures ring == [head, tail] && |tval| == 2
    {
      new;
      Init();
    }

    /** Copy constructor: a fresh ring holding a copy of the elements of `x`. */
    constructor Copy(x: List<T>)
      requires x.Valid()
      ensures Valid() && Elements() == x.Elements() && FreeCount() == 0
    {
      new;
      Init();
      Append(x);
    }

    /** Makes `head` and `tail` two fresh links forming a 2-cycle. */
    method Init()
      modifies this
      ensures Valid() && Elements() == [] && FreeCount() == 0
      ensures ring == [head, tail] && |tval| == 2
      ensures next[head] == tail && prev[head] == tail && next[tail] == head && prev[tail] == head
      ensures Empty() && Full()
    {
      var blank: T :| true;
      tval, next, prev := [blank, blank], [1, 0], [1, 0];
      head, tail := 0, 1;
      ring, active := [0, 1], 0;
    }

    /** Allocates a detached link holding `t`; the ring is untouched. */
    method NewLink(t: T) returns (x: int)
      requires Valid()
      modifies this`tval, this`next, this`prev
      ensures Valid() && Elements() == old(Elements())
      ensures x == old(|tval|) && x !in ring
      ensures tval == old(tval) + [t] && next == old(next) + [Null] && prev == old(prev) + [Null]
    {
      x := |tval|;
      Grow(ring, active, head, tail, |tval|, next, prev, Null, Null);
      GatherSame(tval, tval + [t], ring[1..active + 1]);
      tval, next, prev := tval + [t], next + [Null], prev + [Null];
    }

    /** Makes the detached link `x` the predecessor of `location`, fixing the
        back link of `location` and the forward link of its old
        predecessor.  When `location` is `x` itself, `x` ends up a one-link
        loop off the ring. */
    method LinkIn(location: int, x: int)
      requires Valid()
      requires 0 <= x < |tval| && x !in ring
      requires location in ring || location == x
      modifies this`next, this`prev, this`ring, this`active
      ensures Valid()
      ensures location == x ==>
        && next == old(next)[x := x] && prev == old(prev)[x := x]
        && ring == old(ring) && active == old(active)
      ensures location != x ==>
        var j := Slot(old(ring), location);
        && next == old(next)[x := location][old(prev[location]) := x]
        && prev == old(prev)[x := old(prev[location])][location := x]
        && ring == InsertAt(old(ring), j, x)
        && active == if j <= old(active) + 1 then old(active) + 1 else old(active)
    {
      var nx, pv := next, prev;
      nx := nx[x := location];
      pv := pv[x := pv[location]];
      pv := pv[nx[x] := x];
      nx := nx[pv[x] := x];
      ghost var r, n := LinkInWrites(ring, active, head, tail, |tval|, next, prev, location, x, nx, pv);
      next, prev, ring, active := nx, pv, r, n;
    }

    /** Unhooks link `x` (never a marker): its neighbours are joined to each
        other and its own links become null.  On a loose link the joining
        writes rewrite its own links with themselves, so only the nulling
        has an effect and the ring is untouched. */
    method LinkOut(x: int) returns (y: int)
      requires Valid()
      requires (x in ring && x != head && x != tail) || Loose(x)
      modifies this`next, this`prev, this`ring, this`active
      ensures Valid()
      ensures y == x && x !in ring
      ensures next == old(next)[old(prev[x]) := old(next[x])][x := Null]
      ensures prev == old(prev)[old(next[x]) := old(prev[x])][x := Null]
      ensures old(x in ring) ==>
        var k := IndexOf(old(ring), x);
        && ring == Without(old(ring), k)
        && active == if k <= old(active) then old(active) - 1 else old(active)
      ensures old(x !in ring) ==> ring == old(ring) && active == old(active)
    {
      var nx, pv := next, prev;
      nx := nx[pv[x] := nx[x]];
      pv := pv[nx[x] := pv[x]];
      pv := pv[x := Null];
      nx := nx[x := Null];
      ghost var r, n := ring, active;
      if x in ring {
        r, n := LinkOutWrites(ring, active, head, tail, |tval|, next, prev, x, nx, pv);
      } else {
        OffRing(ring, active, head, tail, |tval|, next, prev, x, Null, Null);
      }
      next, prev, ring, active := nx, pv, r, n;
      y := x;
    }

    /** Remove(i).  A cursor that is null or on a marker is refused (the
        "vacuous iterator" error) and handed back with nothing changed.  Any
        other link is unhooked and parked just after `tail`, never freed,
        and the cursor on its former successor is returned: an element is
        dropped, while a spare link only changes place on the free arc.  A
        loose link (the one the as-written Insert leaves behind) is its own
        successor: it is taken back onto the ring as a spare link and the
        same cursor is returned. */
    method Remove(it: Iterator) returns (r: Iterator)
      requires Valid() && (it.curr == Null || it.curr in ring || Loose(it.curr))
      modifies this`next, this`prev, this`ring, this`active
      ensures Valid() && head == old(head) && tail == old(tail)
      ensures |ring| == old(|ring|) + if old(Loose(it.curr)) then 1 else 0
      ensures it.curr == Null || it.curr == head || it.curr == tail ==> r == it && unchanged(this)
      ensures it.curr != Null && it.curr != head && it.curr != tail ==>
        r.curr == old(next[it.curr]) && next[tail] == it.curr
      ensures old(it.curr in ring) && it.curr != head && it.curr != tail ==>
        var k := IndexOf(old(ring), it.curr);
        && (k <= old(active) ==>
              Elements() == Without(old(Elements()), k - 1) && FreeCount() == old(FreeCount()) + 1 && r.curr == ring[k])
        && (k > old(active) ==> Elements() == old(Elements()) && FreeCount() == old(FreeCount()))
      ensures old(Loose(it.curr)) ==>
        r == it && Elements() == old(Elements()) && FreeCount() == old(FreeCount()) + 1
    {
      if it.curr == Null || it.curr == head || it.curr == tail {
        return it;
      }
      ghost var r0, e0 := ring, Elements();
      ghost var onRing := it.curr in ring;
      ghost var k := if onRing then IndexOf(r0, it.curr) else |r0|;
      r := Iterator(next[it.curr]);
      if onRing {
        assert 0 < k < |r0| && k != active + 1;
        assert r.curr == Wrap(r0, k + 1) && prev[r.curr] == it.curr by {
          if k + 1 < |r0| {
            assert next[r0[k]] == r0[k + 1];
          }
        }
      }
      var x := Unhook(prev[r.curr]);
      ghost var r1, a1 := ring, active;
      ParkAfterTail(x);
      if onRing && k <= old(active) {
        WithoutIndex(r0, k, k);
        InsertAtIndex(r1, a1 + 2, x, k);
      }
    }

    /** Remove(t): removes every element equal to `t`, keeping the others in
        order, and returns how many were removed; each removed link becomes
        a spare one. */
    method RemoveAll(t: T) returns (count: nat)
      requires Valid()
      modifies this`next, this`prev, this`ring, this`active
      ensures Valid() && head == old(head) && tail == old(tail) && |ring| == old(|ring|)
      ensures Elements() == Filtered(old(Elements()), t)
      ensures count == multiset(old(Elements()))[t]
      ensures FreeCount() == old(FreeCount()) + count
    {
      ghost var e := Elements();
      count := 0;
      var i := Begin();
      ghost var done, rest, n := [], e, 0;
      while i != End()
        invariant Valid()
        invariant head == old(head) && tail == old(tail) && |ring| == old(|ring|)
        invariant Elements() == done + rest
        invariant Filtered(e, t) == done + Filtered(rest, t)
        invariant count + Count(rest, t) == Count(e, t)
        invariant n == |done|
        invariant i == Iterator(ring[n + 1])
        invariant FreeCount() == old(FreeCount()) + count
        decreases |rest|
      {
        ghost var els := Elements();
        assert |els| == n + |rest|;
        var hit;
        i, hit, n := RemoveStep(i, t, n);
        done := FilterRound(e, t, done, rest, count, els, Elements(), hit);
        count := if hit then count + 1 else count;
        rest := rest[1..];
      }
      if rest != [] {
        DistinctAt(ring, n + 1, active + 1);
      }
      AppendNil(done, rest, t);
      CountIsMultiplicity(e, t);
    }

    /** One round of Remove(t)'s loop on the cursor `i` at element `k`: the
        link is removed when its value is `t` (the cursor moves to the former
        successor), otherwise the cursor just steps past it. */
    method RemoveStep(i: Iterator, t: T, ghost k: nat) returns (j: Iterator, hit: bool, ghost k': nat)
      requires Valid() && k < active && i == Iterator(ring[k + 1])
      modifies this`next, this`prev, this`ring, this`active
      ensures Valid() && head == old(head) && tail == old(tail) && |ring| == old(|ring|)
      ensures hit <==> old(Elements())[k] == t
      ensures Elements() == if hit then Without(old(Elements()), k) else old(Elements())
      ensures FreeCount() == old(FreeCount()) + if hit then 1 else 0
      ensures k' == if hit then k else k + 1
      ensures j == Iterator(ring[k' + 1])
    {
      DistinctAt(ring, k + 1, 0);
      DistinctAt(ring, k + 1, active + 1);
      IndexOfDistinct(ring, k + 1);
      if t == Deref(i) {
        j := Remove(i);
        hit, k' := true, k;
      } else {
        NextOnRing(i, k + 1);
        j := Next(i);
        hit, k' := false, k + 1;
      }
    }

    /** The first half of Remove(i): LinkOut on link `x`, seen from the
        elements. */
    method Unhook(x: int) returns (y: int)
      requires Valid() && ((x in ring && x != head && x != tail) || Loose(x))
      modifies this`next, this`prev, this`ring, this`active
      ensures Valid() && y == x && x !in ring
      ensures old(x in ring) ==>
        var k := IndexOf(old(ring), x);
        && ring == Without(old(ring), k)
        && active == (if k <= old(active) then old(active) - 1 else old(active))
        && Elements() == if k <= old(active) then Without(old(Elements()), k - 1) else old(Elements())
      ensures old(x !in ring) ==> ring == old(ring) && active == old(active) && Elements() == old(Elements())
    {
      ghost var r0, e0 := ring, Elements();
      y := LinkOut(x);
      if x in r0 {
        CutElements(r0, e0, IndexOf(r0, x));
      }
    }

    /** The second half of Remove(i): the unhooked link `x` goes back on the
        ring just after `tail`, as the first spare link. */
    method ParkAfterTail(x: int)
      requires Valid() && 0 <= x < |tval| && x !in ring
      modifies this`next, this`prev, this`ring, this`active
      ensures Valid() && Elements() == old(Elements()) && active == old(active)
      ensures ring == InsertAt(old(ring), old(active) + 2, x) && next[tail] == x
    {
      ghost var r1, e1, a1 := ring, Elements(), active;
      var location := next[tail];
      assert location == Wrap(r1, a1 + 2) by {
        if a1 + 2 < |r1| {
          assert next[r1[a1 + 1]] == r1[a1 + 2];
        }
      }
      SlotWrap(r1, a1 + 2);
      LinkIn(location, x);
      SplicedElements(r1, e1, a1 + 2, x);
      InsertAtIndex(r1, a1 + 2, x, a1 + 1);
      InsertAtIndex(r1, a1 + 2, x, a1 + 2);
      assert next[ring[active + 1]] == ring[active + 2];
    }

    /** What CheckLinks reports about the link at position `k` of the ring:
        a forward fault when its successor's `prev` is not it, a reverse
        fault when its predecessor's `next` is not it. */
    ghost function FaultsAt(k: int): seq<LinkFault>
      reads this
      requires Walkable() && 0 <= k < |ring|
    {
      var p := ring[k];
      (if prev[next[p]] != p then [ForwardFault(k)] else [])
      + (if next[prev[p]] != p then [ReverseFault(k)] else [])
    }

    /** What CheckLinks reports about the first `n` links from `head`. */
    ghost function FaultsUpTo(n: int): seq<LinkFault>
      reads this
      requires Walkable() && 0 <= n <= |ring|
    {
      if n == 0 then [] else FaultsUpTo(n - 1) + FaultsAt(n - 1)
    }

    /** CheckLinks: walks the ring once from `head`, checking both
        neighbours of every link, then compares the number of links seen
        with 2 + Size() + Excess().  The lines it would write are returned.
        On a walkable ring the count always agrees, so the report is the
        link faults in ring order. */
    method CheckLinks() returns (report: seq<LinkFault>)
      requires Walkable()
      ensures report == FaultsUpTo(|ring|)
    {
      var p := head;
      var n: nat := 0;
      report := [];
      while n == 0 || p != head
        invariant 0 <= n <= |ring|
        invariant p == Wrap(ring, n)
        invariant report == FaultsUpTo(n)
        decreases |ring| - n
      {
        ghost var before := report;
        var q := prev[next[p]];
        if p != q {
          report := report + [ForwardFault(n)];
        }
        q := next[prev[p]];
        if p != q {
          report := report + [ReverseFault(n)];
        }
        assert report == before + FaultsAt(n);
        assert next[p] == Wrap(ring, n + 1);
        p := next[p];
        n := n + 1;
      }
      if n < |ring| {
        DistinctAt(ring, n, 0);
      }
      var size := Size();
      var excess := Excess();
      if n != 2 + size + excess {
        report := report + [CountMismatch(n, size, excess)];
      }
    }

    /** Nothing is reported for the first `n` links exactly when each of
        them passes both checks. */
    lemma {:induction false} NoFaultsUpTo(n: int)
      requires Walkable() && 0 <= n <= |ring|
      ensures FaultsUpTo(n) == [] <==> forall k :: 0 <= k < n ==> FaultsAt(k) == []
    {
      if n > 0 {
        NoFaultsUpTo(n - 1);
      }
    }

    /** CheckLinks reports nothing exactly when the back links are right:
        on a walkable ring the checks it makes are sound and complete for
        the object invariant. */
    lemma CheckLinksExact()
      requires Walkable()
      ensures FaultsUpTo(|ring|) == [] <==> BackLinked(ring, prev)
    {
      NoFaultsUpTo(|ring|);
      var r := ring;
      if BackLinked(r, prev) {
        forall k | 0 <= k < |r|
          ensures FaultsAt(k) == []
        {
          var j := if k + 1 < |r| then k + 1 else 0;
          assert next[r[k]] == r[j];
          assert prev[r[j]] == r[k];
          var i := if k == 0 then |r| - 1 else k - 1;
          assert prev[r[k]] == r[i];
          assert next[r[i]] == r[k];
        }
      } else {
        var m: int :| 0 <= m < |r| && prev[r[m]] != r[if m == 0 then |r| - 1 else m - 1];
        var i := if m == 0 then |r| - 1 else m - 1;
        assert next[r[i]] == r[m];
        assert FaultsAt(i) != [];
      }
    }

    /** `c` is the link of an element or `tail`: a cursor from Begin() up
        to End(), at element position `Position(c)`. */
    ghost predicate Between(c: int)
      reads this
      requires Valid()
    {
      c in ring && 0 < IndexOf(ring, c) <= active + 1
    }

    /** The element position of a cursor on link `c` (`active` for `tail`). */
    ghost function Position(c: int): int
      reads this
      requires Valid() && Between(c)
    {
      IndexOf(ring, c) - 1
    }

    /** Insert(i, t) with the cursor checks applied on both branches: on an
        empty list the cursor is taken to be End(), a null cursor is refused
        (End() is returned), and otherwise `t` becomes the element in front
        of the cursor's one, on a new link when no spare link is left and
        otherwise on the spare link taken from `tail`.  The returned cursor
        designates the link holding `t`. */
    method Insert(it: Iterator, t: T) returns (r: Iterator)
      requires Valid() && (it.curr == Null || Between(it.curr) || Elements() == [])
      modifies this
      ensures Valid() && head == old(head)
      ensures old(Elements()) != [] && it.curr == Null ==> r == End() && unchanged(this)
      ensures old(Elements()) == [] || it.curr != Null ==>
        var k := if old(Elements()) == [] then 0 else old(Position(it.curr));
        && Elements() == InsertAt(old(Elements()), k, t)
        && FreeCount() == (if old(FreeCount()) == 0 then 0 else old(FreeCount()) - 1)
        && r.curr == ring[k + 1]
        && (old(FreeCount()) > 0 ==> r.curr == old(tail))
    {
      var i := it;
      if Empty() {
        i := End();
        IndexOfDistinct(ring, active + 1);
      }
      if !i.Valid() {
        return End();
      }
      var excess := Excess();
      if excess == 0 {
        r := GrowAt(i.curr, t);
      } else {
        r := ReuseAt(i.curr, t);
      }
    }

    /** Insert(i, t) as the source writes it.  With no spare link it is the
        checked insertion above.  With a spare link the cursor is neither
        normalised nor checked (a null one would be dereferenced): `t` goes
        on the `tail` link, `tail` advances, and that link is unhooked and
        spliced in before the cursor.  When the cursor is the old `tail`
        itself (End(), as Insert(t) passes it) the link is spliced in front
        of itself: it becomes a loop of one link off the ring, `t` is lost
        and one spare link is gone. */
    method InsertAsWritten(it: Iterator, t: T) returns (r: Iterator)
      requires Valid() && (it.curr == Null || Between(it.curr) || (Elements() == [] && FreeCount() == 0))
      requires FreeCount() > 0 ==> it.curr != Null
      modifies this
      ensures Valid() && head == old(head)
      ensures old(FreeCount()) > 0 && it.curr == old(tail) ==>
        && Elements() == old(Elements()) && FreeCount() == old(FreeCount()) - 1
        && r == it && r.curr !in ring && 0 <= r.curr < |next| == |prev|
        && next[r.curr] == r.curr && prev[r.curr] == r.curr
      ensures old(FreeCount()) == 0 && old(Elements()) != [] && it.curr == Null ==>
        r == End() && unchanged(this)
      ensures (old(FreeCount()) == 0 && (old(Elements()) == [] || it.curr != Null)) || (old(FreeCount()) > 0 && it.curr != old(tail)) ==>
        var k := if old(Elements()) == [] then 0 else old(Position(it.curr));
        && Elements() == InsertAt(old(Elements()), k, t)
        && FreeCount() == (if old(FreeCount()) == 0 then 0 else old(FreeCount()) - 1)
        && r.curr == ring[k + 1]
        && (old(FreeCount()) > 0 ==> r.curr == old(tail))
    {
      var excess := Excess();
      if excess == 0 {
        var i := it;
        if Empty() {
          i := End();
          IndexOfDistinct(ring, active + 1);
        }
        if !i.Valid() {
          return End();
        }
        r := GrowAt(i.curr, t);
      } else {
        // Both outcomes go through the same statements: ReuseBack, LinkOut of the
        // old tail link, LinkIn before the cursor.
        if it.curr == tail {
          r := LoseTail(t);
        } else {
          r := ReuseAt(it.curr, t);
        }
      }
    }

    /** Insert(t): insertion at End(), i.e. after the last element, the
        same as PushBack. */
    method InsertAtEnd(t: T) returns (r: Iterator)
      requires Valid()
      modifies this
      ensures Valid() && head == old(head)
      ensures Elements() == old(Elements()) + [t]
      ensures FreeCount() == if old(FreeCount()) == 0 then 0 else old(FreeCount()) - 1
      ensures r.curr == ring[|Elements()|]
    {
      IndexOfDistinct(ring, active + 1);
      r := Insert(End(), t);
      InsertAtEnds(old(Elements()), t);
    }

    /** Insert(t) as the source writes it: with a spare link the value is
        lost and a spare link disappears (see InsertAsWritten). */
    method InsertAtEndAsWritten(t: T) returns (r: Iterator)
      requires Valid()
      modifies this
      ensures Valid() && head == old(head)
      ensures old(FreeCount()) == 0 ==> Elements() == old(Elements()) + [t] && FreeCount() == 0
      ensures old(FreeCount()) > 0 ==> Elements() == old(Elements()) && FreeCount() == old(FreeCount()) - 1
      ensures old(FreeCount()) > 0 ==> r.curr == old(tail) && Loose(r.curr)
    {
      IndexOfDistinct(ring, active + 1);
      r := InsertAsWritten(End(), t);
      InsertAtEnds(old(Elements()), t);
    }

    /** The no-spare branch of Insert: a new link holding `t` is spliced in
        before the link `c` of an element or `tail`. */
    method GrowAt(c: int, t: T) returns (r: Iterator)
      requires Valid() && FreeCount() == 0 && Between(c)
      modifies this
      ensures Valid() && head == old(head) && FreeCount() == 0
      ensures Elements() == InsertAt(old(Elements()), old(Position(c)), t)
      ensures r.curr == ring[old(Position(c)) + 1]
    {
      var x := NewLink(t);
      SpliceBefore(c, x);
      r := Iterator(x);
    }

    /** The spare branch of the checked Insert: `t` goes on the `tail` link
        and `tail` advances; unless the cursor was on that very link, the
        link then moves to just before the cursor's link. */
    method ReuseAt(c: int, t: T) returns (r: Iterator)
      requires Valid() && FreeCount() > 0 && Between(c)
      modifies this
      ensures Valid() && head == old(head) && FreeCount() == old(FreeCount()) - 1
      ensures Elements() == InsertAt(old(Elements()), old(Position(c)), t)
      ensures r.curr == ring[old(Position(c)) + 1] && r.curr == old(tail)
    {
      IndexOfDistinct(ring, active + 1);
      ghost var e, k := Elements(), IndexOf(ring, c);
      var x := tail;
      if c == x {
        ReuseBack(t);
        InsertAtEnds(e, t);
        r := Iterator(x);
      } else {
        ReuseBack(t);
        IndexOfDistinct(ring, k);
        assert (e + [t])[..|e|] == e;
        r := Relink(c);
      }
    }

    /** Moves the link of the last element (which holds `t`) to just before
        the link `c` of an earlier element. */
    method Relink(c: int) returns (r: Iterator)
      requires Valid() && c in ring && 0 < IndexOf(ring, c) < active
      modifies this`next, this`prev, this`ring, this`active
      ensures Valid() && head == old(head) && tail == old(tail) && |ring| == old(|ring|) && active == old(active)
      ensures var e, k := old(Elements()), old(IndexOf(ring, c)) - 1;
        Elements() == InsertAt(e[..|e| - 1], k, e[|e| - 1]) && r.curr == ring[k + 1]
      ensures r.curr == old(ring[active])
    {
      ghost var r0, k, e := ring, IndexOf(ring, c), Elements();
      assert tval[ring[active]] == e[|e| - 1];
      var x := UnhookLast();
      WithoutIndex(r0, old(active), k);
      IndexOfDistinct(ring, k);
      assert Position(c) == k - 1;
      SpliceBefore(c, x);
      r := Iterator(x);
    }

    /** LinkOut on the link of the last element: it leaves the ring and the
        elements lose their last one. */
    method UnhookLast() returns (x: int)
      requires Valid() && active > 0
      modifies this`next, this`prev, this`ring, this`active
      ensures Valid() && head == old(head) && tail == old(tail)
      ensures x == old(ring[active]) && x !in ring && 0 <= x < |tval|
      ensures ring == Without(old(ring), old(active)) && active == old(active) - 1
      ensures Elements() == old(Elements()[..active - 1])
    {
      ghost var e := Elements();
      assert prev[tail] == ring[active];
      IndexOfDistinct(ring, active);
      DistinctAt(ring, active, 0);
      DistinctAt(ring, active, active + 1);
      WithoutLast(e);
      x := Unhook(prev[tail]);
    }

    /** LinkIn of the detached link `x` before the link `c` of an element or
        `tail`: its value becomes the element in front of `c`'s one. */
    method SpliceBefore(c: int, x: int)
      requires Valid() && Between(c) && 0 <= x < |tval| && x !in ring
      modifies this`next, this`prev, this`ring, this`active
      ensures Valid() && head == old(head) && tail == old(tail)
      ensures |ring| == old(|ring|) + 1 && active == old(active) + 1
      ensures Elements() == InsertAt(old(Elements()), old(Position(c)), tval[x])
      ensures ring[old(Position(c)) + 1] == x
    {
      ghost var r0, e, k := ring, Elements(), IndexOf(ring, c);
      LinkIn(c, x);
      SplicedElements(r0, e, k, x);
      InsertAtIndex(r0, k, x, k);
    }

    /** The spare branch of Insert as written, when the cursor is the old
        `tail`: `t` goes on the `tail` link, `tail` advances, and the link
        is unhooked and spliced in front of itself, leaving a loop of one
        link off the ring. */
    method LoseTail(t: T) returns (r: Iterator)
      requires Valid() && FreeCount() > 0
      modifies this
      ensures Valid() && head == old(head)
      ensures Elements() == old(Elements()) && FreeCount() == old(FreeCount()) - 1
      ensures r.curr == old(tail) && r.curr !in ring && 0 <= r.curr < |next| == |prev|
      ensures next[r.curr] == r.curr && prev[r.curr] == r.curr
    {
      ghost var e := Elements();
      var x := tail;
      ReuseBack(t);
      assert (e + [t])[..|e|] == e;
      var y := UnhookLast();
      LinkIn(y, y);
      r := Iterator(y);
    }

    /** Counts the links from `head.next` up to `tail`. */
    method Size() returns (size: nat)
      requires Walkable()
      ensures size == |Elements()|
    {
      size := 0;
      var curr := next[head];
      while curr != tail
        invariant size <= active && curr == ring[size + 1]
        decreases active - size
      {
        curr := next[curr];
        size := size + 1;
      }
      if size != active {
        DistinctAt(ring, size + 1, active + 1);
      }
    }

    /** Counts the links from `tail.next` up to `head`. */
    method Excess() returns (excess: nat)
      requires Walkable()
      ensures excess == FreeCount()
    {
      excess := 0;
      var curr := next[tail];
      while curr != head
        invariant excess <= FreeCount()
        invariant curr == Wrap(ring, active + 2 + excess)
        decreases FreeCount() - excess
      {
        curr := next[curr];
        excess := excess + 1;
      }
      if excess != FreeCount() {
        DistinctAt(ring, active + 2 + excess, 0);
      }
    }

    /** Every link except the two markers: elements plus spare links. */
    method Capacity() returns (capacity: nat)
      requires Walkable()
      ensures capacity == |Elements()| + FreeCount()
      ensures capacity == |ring| - 2
    {
      var size := Size();
      var excess := Excess();
      capacity := size + excess;
    }

    /** `head.next == tail`: there is no element. */
    function Empty(): (b: bool)
      reads this
      requires Walkable()
      ensures b <==> Elements() == []
    {
      assert next[head] == ring[1];
      assert active != 0 ==> ring[1] != tail by {
        if active != 0 {
          DistinctAt(ring, 1, active + 1);
        }
      }
      next[head] == tail
    }

    /** `tail.next == head`: there is no spare link. */
    function Full(): (b: bool)
      reads this
      requires Walkable()
      ensures b <==> FreeCount() == 0
    {
      assert next[tail] == Wrap(ring, active + 2);
      assert active + 2 < |ring| ==> ring[active + 2] != head by {
        if active + 2 < |ring| {
          DistinctAt(ring, active + 2, 0);
        }
      }
      next[tail] == head
    }

    /** Front: the first element.  On an empty list the "called on empty
        list" error is reported and the value of the link Begin() designates,
        the `tail` marker, is handed back anyway. */
    function Front(): (f: Fetched<T>)
      reads this
      requires Valid()
      ensures f.emptyError <==> Elements() == []
      ensures Elements() != [] ==> f.value == Elements()[0]
      ensures Elements() == [] ==> f.value == tval[tail]
    {
      Fetched(Empty(), Deref(Begin()))
    }

    /** Back: the last element.  On an empty list the error is reported and
        the value of the link rBegin() designates, the `head` marker, is
        handed back anyway. */
    function Back(): (f: Fetched<T>)
      reads this
      requires Valid()
      ensures f.emptyError <==> Elements() == []
      ensures Elements() != [] ==> f.value == Elements()[|Elements()| - 1]
      ensures Elements() == [] ==> f.value == tval[head]
    {
      Fetched(Empty(), Deref(rBegin()))
    }

    /** Assignment through a ListIterator: the value of the designated link
        becomes `t`; an element changes exactly where its link is that one. */
    method Store(it: Iterator, t: T)
      requires Valid() && 0 <= it.curr < |tval|
      modifies this`tval
      ensures Valid() && tval == old(tval)[it.curr := t]
      ensures |Elements()| == |old(Elements())|
      ensures forall k :: 0 <= k < |Elements()| ==>
        Elements()[k] == if ring[k + 1] == it.curr then t else old(Elements())[k]
    {
      tval := tval[it.curr := t];
    }

    /** Sequential search: the cursor on the first element equal to `t`, or
        End() when there is none. */
    method Includes(t: T) returns (r: Iterator)
      requires Valid()
      ensures r.curr == ring[FirstIndex(Elements(), t) + 1]
      ensures r == End() <==> t !in Elements()
    {
      ghost var e := Elements();
      var i := Begin();
      ghost var k := 0;
      while i != End()
        invariant 0 <= k
        invariant k <= active
        invariant i == Iterator(ring[k + 1])
        invariant k <= FirstIndex(e, t)
        decreases active - k
      {
        if t == Deref(i) {
          if k != active {
            DistinctAt(ring, k + 1, active + 1);
          }
          FirstIndexIs(e, t, k);
          return i;
        }
        assert k < active && e[k] != t;
        NextOnRing(i, k + 1);
        i := Next(i);
        k := k + 1;
      }
      if k != active {
        DistinctAt(ring, k + 1, active + 1);
      }
      FirstIndexIs(e, t, k);
      r := End();
    }

    /** The elements after a link `x` was spliced in at position `j` of the
        ring `r`, whose links after `head` held the elements `e`. */
    lemma SplicedElements(r: seq<int>, e: seq<T>, j: int, x: int)
      requires Walkable() && 0 <= x < |tval|
      requires |e| + 2 <= |r| && 0 < j <= |r| && forall k :: 0 <= k < |r| ==> 0 <= r[k] < |tval|
      requires e == Gather(tval, r[1..|e| + 1])
      requires ring == InsertAt(r, j, x) && active == (if j <= |e| + 1 then |e| + 1 else |e|)
      ensures Elements() == if j <= |e| + 1 then InsertAt(e, j - 1, tval[x]) else e
    {
      GatherSplice(tval, r, |e|, j, x, ring, active);
    }

    /** The elements after position `k` (never `tail`'s) of the ring `r`,
        whose links after `head` held the elements `e`, was cut out. */
    lemma CutElements(r: seq<int>, e: seq<T>, k: int)
      requires Walkable()
      requires |e| + 2 <= |r| && 0 < k < |r| && k != |e| + 1 && forall i :: 0 <= i < |r| ==> 0 <= r[i] < |tval|
      requires e == Gather(tval, r[1..|e| + 1])
      requires ring == Without(r, k) && active == (if k <= |e| then |e| - 1 else |e|)
      ensures Elements() == if k <= |e| then Without(e, k - 1) else e
    {
      GatherCut(tval, r, |e|, k, ring, active);
    }

    /** The elements after `tail` advanced onto the link after it, which now
        holds `t`, when the ring `r` held the elements `e` in `vals`. */
    lemma AdvancedElements(r: seq<int>, e: seq<T>, vals: seq<T>, t: T)
      requires Walkable() && ring == r && active == |e| + 1
      requires forall k :: 0 <= k < |r| ==> 0 <= r[k] < |vals|
      requires e == Gather(vals, r[1..|e| + 1]) && tval == vals[r[|e| + 1] := t]
      ensures Elements() == e + [t]
    {
      GatherAdvance(vals, r, |e|, t);
    }

    /** The elements after `head` retreated onto the link before it, whose
        old place `r[0]` now holds `t`, when the ring `r` held the elements
        `e` in `vals`. */
    lemma RetreatedElements(r: seq<int>, e: seq<T>, vals: seq<T>, t: T)
      requires Walkable() && Distinct(r) && |e| + 3 <= |r| && active == |e| + 1
      requires ring == [r[|r| - 1]] + r[..|r| - 1]
      requires forall k :: 0 <= k < |r| ==> 0 <= r[k] < |vals|
      requires e == Gather(vals, r[1..|e| + 1]) && tval == vals[r[0] := t]
      ensures Elements() == [t] + e
    {
      GatherRetreat(vals, r, |e|, t, ring);
    }

    /** Puts `t` in front of the first element, on a new link when no spare
        link is left and otherwise on the `head` marker, which then retreats
        onto the spare link before it. */
    method PushFront(t: T) returns (ok: bool)
      requires Valid()
      modifies this
      ensures Valid() && ok && tail == old(tail)
      ensures Elements() == [t] + old(Elements())
      ensures |ring| == old(|ring|) + (if old(FreeCount()) == 0 then 1 else 0)
      ensures FreeCount() == if old(FreeCount()) == 0 then 0 else old(FreeCount()) - 1
      ensures old(FreeCount()) > 0 ==>
        && next == old(next) && prev == old(prev)
        && tval == old(tval)[old(head) := t] && head == old(prev[head])
    {
      var excess := Excess();
      if excess == 0 {
        GrowFront(t);
      } else {
        ReuseFront(t);
      }
      ok := true;
    }

    /** PushFront with no spare link: a new link is spliced in after `head`. */
    method GrowFront(t: T)
      requires Valid() && FreeCount() == 0
      modifies this
      ensures Valid() && tail == old(tail) && FreeCount() == 0
      ensures Elements() == [t] + old(Elements()) && |ring| == old(|ring|) + 1
    {
      var x := NewLink(t);
      ghost var r, e := ring, Elements();
      var first := next[head];
      assert first == r[1];
      IndexOfDistinct(r, 1);
      LinkIn(first, x);
      assert active == |e| + 1 && |ring| == |r| + 1 && Elements() == [t] + e by {
        assert Slot(r, first) == 1;
        SplicedElements(r, e, 1, x);
        InsertAtEnds(e, t);
      }
    }

    /** PushFront with a spare link: `t` goes on the `head` marker, which
        retreats onto the spare link before it. */
    method ReuseFront(t: T)
      requires Valid() && FreeCount() > 0
      modifies this`tval, this`head, this`ring, this`active
      ensures Valid() && tail == old(tail) && FreeCount() == old(FreeCount()) - 1
      ensures Elements() == [t] + old(Elements()) && |ring| == old(|ring|)
      ensures tval == old(tval)[old(head) := t] && head == old(prev[head])
    {
      ghost var r := [ring[|ring| - 1]] + ring[..|ring| - 1];
      assert prev[head] == ring[|ring| - 1];
      RetreatHead(ring, active, head, tail, |tval|, next, prev, r, prev[head]);
      tval, head, ring, active := tval[head := t], prev[head], r, active + 1;
      RetreatedElements(old(ring), old(Elements()), old(tval), t);
    }

    /** Puts `t` after the last element, on a new link spliced in before
        `tail` when no spare link is left and otherwise on the `tail` marker,
        which then advances onto the first spare link. */
    method PushBack(t: T) returns (ok: bool)
      requires Valid()
      modifies this
      ensures Valid() && ok && head == old(head)
      ensures Elements() == old(Elements()) + [t]
      ensures |ring| == old(|ring|) + (if old(FreeCount()) == 0 then 1 else 0)
      ensures FreeCount() == if old(FreeCount()) == 0 then 0 else old(FreeCount()) - 1
      ensures old(FreeCount()) > 0 ==>
        && next == old(next) && prev == old(prev) && ring == old(ring)
        && tval == old(tval)[old(tail) := t] && tail == old(next[tail])
    {
      var excess := Excess();
      if excess == 0 {
        GrowBack(t);
      } else {
        ReuseBack(t);
      }
      ok := true;
    }

    /** PushBack with no spare link: a new link is spliced in before `tail`. */
    method GrowBack(t: T)
      requires Valid() && FreeCount() == 0
      modifies this
      ensures Valid() && head == old(head) && FreeCount() == 0
      ensures Elements() == old(Elements()) + [t] && |ring| == old(|ring|) + 1
    {
      var x := NewLink(t);
      ghost var r, e := ring, Elements();
      IndexOfDistinct(r, |e| + 1);
      LinkIn(tail, x);
      assert active == |e| + 1 && |ring| == |r| + 1 && Elements() == e + [t] by {
        assert Slot(r, old(tail)) == |e| + 1;
        SplicedElements(r, e, |e| + 1, x);
        InsertAtEnds(e, t);
      }
    }

    /** PushBack with a spare link: `t` goes on the `tail` marker, which
        advances onto the first spare link. */
    method ReuseBack(t: T)
      requires Valid() && FreeCount() > 0
      modifies this`tval, this`tail, this`active
      ensures Valid() && head == old(head) && ring == old(ring) && FreeCount() == old(FreeCount()) - 1
      ensures Elements() == old(Elements()) + [t]
      ensures tval == old(tval)[old(tail) := t] && tail == old(next[tail])
    {
      assert next[tail] == ring[active + 2];
      MoveTail(ring, active, head, tail, |tval|, next, prev, active + 1, next[tail]);
      tval, tail, active := tval[tail := t], next[tail], active + 1;
      AdvancedElements(ring, old(Elements()), old(tval), t);
    }

    /** Drops the first element by advancing `head` onto it; on an empty list
        reports failure and changes nothing. */
    method PopFront() returns (ok: bool)
      requires Valid()
      modifies this`head, this`ring, this`active
      ensures Valid() && tail == old(tail) && |ring| == old(|ring|)
      ensures ok <==> old(Elements()) != []
      ensures !ok ==> unchanged(this)
      ensures ok ==> Elements() == old(Elements())[1..] && FreeCount() == old(FreeCount()) + 1
      ensures ok ==> head == old(next[head]) && ring == old(ring[1..] + [ring[0]])
    {
      if Empty() {
        return false;
      }
      AdvanceHead(ring, active, head, tail, |tval|, next, prev, ring[1..] + [ring[0]], next[head]);
      head := next[head];
      ring, active := ring[1..] + [ring[0]], active - 1;
      assert ring[1..active + 1] == old(ring)[2..old(active) + 1];
      return true;
    }

    /** Drops the last element by retreating `tail` onto it; on an empty list
        reports failure and changes nothing. */
    method PopBack() returns (ok: bool)
      requires Valid()
      modifies this`tail, this`active
      ensures Valid() && head == old(head) && ring == old(ring)
      ensures ok <==> old(Elements()) != []
      ensures !ok ==> unchanged(this)
      ensures ok ==> Elements() == old(Elements())[..|old(Elements())| - 1] && FreeCount() == old(FreeCount()) + 1
    {
      if Empty() {
        return false;
      }
      MoveTail(ring, active, head, tail, |tval|, next, prev, active - 1, prev[tail]);
      tail := prev[tail];
      active := active - 1;
      assert ring[1..active + 1] == old(ring)[1..old(active)];
      assert Elements() == old(Elements())[..active] by {
        assert old(Elements())[..active] == Gather(old(tval), old(ring)[1..old(active)]);
      }
      return true;
    }

    /** Makes the list empty by moving `tail` next to `head`: every link
        becomes a spare, none is freed. */
    method Clear()
      requires Valid()
      modifies this`tail, this`active
      ensures Valid() && Elements() == [] && ring == old(ring) && head == old(head)
      ensures FreeCount() == old(|Elements()| + FreeCount())
    {
      MoveTail(ring, active, head, tail, |tval|, next, prev, 0, next[head]);
      tail := next[head];
      active := 0;
    }

    /** Appends a copy of every element of `list`, in order, by PushBack;
        the spare links of this list are used first. */
    method Append(list: List<T>)
      requires Valid() && list.Valid() && list != this
      modifies this
      ensures Valid() && Elements() == old(Elements()) + list.Elements()
      ensures |ring| - 2 == Max(old(|ring|) - 2, old(|Elements()|) + |list.Elements()|)
    {
      ghost var src := list.Elements();
      var i := list.Begin();
      ghost var k := 0;
      while i != list.End()
        invariant Valid()
        invariant unchanged(list)
        invariant 0 <= k <= |src| && i.curr == list.ring[k + 1]
        invariant Elements() == old(Elements()) + src[..k]
        invariant |ring| - 2 == Max(old(|ring|) - 2, old(|Elements()|) + k)
        decreases |src| - k
      {
        ExtendPrefix(old(Elements()), src, k);
        IndexOfDistinct(list.ring, k + 1);
        var ok := PushBack(list.Deref(i));
        i := list.Next(i);
        k := k + 1;
      }
      if k != |src| {
        DistinctAt(list.ring, k + 1, list.active + 1);
      }
      assert k == |src|;
    }

    /** operator=: unless `rhs` is this very list, the list is cleared and a
        copy of the elements of `rhs` is appended, so the links already
        owned are reused and capacity never shrinks. */
    method Assign(rhs: List<T>)
      requires Valid() && rhs.Valid()
      modifies this
      ensures Valid() && Elements() == old(rhs.Elements())
      ensures |ring| == Max(old(|ring|), |Elements()| + 2)
    {
      if this != rhs {
        Clear();
        Append(rhs);
      }
    }

    /** operator+=: appends a copy of the elements of `list`; adding a list
        to itself does nothing. */
    method AppendAssign(list: List<T>)
      requires Valid() && list.Valid()
      modifies this
      ensures Valid()
      ensures list == this ==> unchanged(this)
      ensures list != this ==>
        && Elements() == old(Elements()) + list.Elements()
        && |ring| - 2 == Max(old(|ring|) - 2, old(|Elements()|) + |list.Elements()|)
    {
      if this != list {
        Append(list);
      }
    }

    /** Clone: a fresh list holding a copy of the elements, with no spare link. */
    method Clone() returns (c: List<T>)
      requires Valid()
      ensures fresh(c) && c.Valid() && c.Elements() == Elements() && c.FreeCount() == 0
    {
      c := new List();
      c.Append(this);
    }

    /** operator* (Retrieve): the value on the link `it` designates.  A null
        cursor makes Retrieve exit the program, so the cursor must designate
        a link.  On an element's link this is that element. */
    function Deref(it: Iterator): (v: T)
      reads this
      requires 0 <= it.curr < |tval|
      ensures Walkable() ==> forall k :: 0 <= k < active && ring[k + 1] == it.curr ==> v == Elements()[k]
    {
      tval[it.curr]
    }

    /** Moving a cursor forward: a null cursor stays null, one on the ring
        moves to the following link of the ring, and one on a loose link
        stays where it is. */
    function Next(it: Iterator): (r: Iterator)
      reads this
      requires Valid() && (it.curr == Null || it.curr in ring || Loose(it.curr))
      ensures it.curr == Null ==> r.curr == Null
      ensures it.curr in ring ==> r.curr == Wrap(ring, IndexOf(ring, it.curr) + 1)
      ensures Loose(it.curr) ==> r == it
    {
      if it.curr == Null then it else Iterator(next[it.curr])
    }

    /** Moving a cursor backward: a null cursor stays null, one on the ring
        moves to the preceding link of the ring, and one on a loose link
        stays where it is. */
    function Prev(it: Iterator): (r: Iterator)
      reads this
      requires Valid() && (it.curr == Null || it.curr in ring || Loose(it.curr))
      ensures it.curr == Null ==> r.curr == Null
      ensures Loose(it.curr) ==> r == it
      ensures it.curr in ring ==>
        var k := IndexOf(ring, it.curr);
        r.curr == if k == 0 then ring[|ring| - 1] else ring[k - 1]
    {
      if it.curr == Null then it else Iterator(prev[it.curr])
    }

    /** Stepping a cursor forward from position `k` of the ring reaches position `k + 1`. */
    lemma NextOnRing(it: Iterator, k: int)
      requires Valid() && 0 <= k < |ring| && it.curr == ring[k]
      ensures Next(it).curr == Wrap(ring, k + 1)
    {
      IndexOfDistinct(ring, k);
    }

    /** Moving a cursor `n` links forward (`n` times operator++). */
    ghost function Advance(it: Iterator, n: nat): (r: Iterator)
      reads this
      requires Valid() && it.curr in ring
      ensures 0 <= r.curr < |tval|
      decreases n
    {
      if n == 0 then it
      else
        var k := IndexOf(ring, it.curr);
        assert Next(it).curr == ring[if k + 1 < |ring| then k + 1 else 0];
        Advance(Next(it), n - 1)
    }

    /** Moving a cursor `n` links backward (`n` times operator--). */
    ghost function Retreat(it: Iterator, n: nat): (r: Iterator)
      reads this
      requires Valid() && it.curr in ring
      ensures 0 <= r.curr < |tval|
      decreases n
    {
      if n == 0 then it
      else
        var k := IndexOf(ring, it.curr);
        assert Prev(it).curr == ring[if k == 0 then |ring| - 1 else k - 1];
        Retreat(Prev(it), n - 1)
    }

    /** `n` steps forward from position `i` of the ring, without passing its end. */
    lemma {:induction false} AdvanceOnRing(i: nat, n: nat)
      requires Valid() && i + n < |ring|
      ensures Advance(Iterator(ring[i]), n) == Iterator(ring[i + n])
      decreases n
    {
      if n > 0 {
        NextOnRing(Iterator(ring[i]), i);
        AdvanceOnRing(i + 1, n - 1);
      }
    }

    /** `n` steps backward from position `i` of the ring, without passing its start. */
    lemma {:induction false} RetreatOnRing(i: nat, n: nat)
      requires Valid() && n <= i < |ring|
      ensures Retreat(Iterator(ring[i]), n) == Iterator(ring[i - n])
      decreases n
    {
      if n > 0 {
        IndexOfDistinct(ring, i);
        RetreatOnRing(i - 1, n - 1);
      }
    }

    /** Begin() .. End() spans exactly the elements: stepping `k` times from
        Begin() reaches End() only after the last element, and before that
        rests on element `k`. */
    lemma BeginToEnd(k: nat)
      requires Valid() && k <= |Elements()|
      ensures Advance(Begin(), k) == End() <==> k == |Elements()|
      ensures k < |Elements()| ==> Deref(Advance(Begin(), k)) == Elements()[k]
    {
      AdvanceOnRing(1, k);
      if k < active {
        DistinctAt(ring, k + 1, active + 1);
      }
    }

    /** rBegin() .. rEnd() spans the elements in reverse: stepping `k` times
        back from rBegin() reaches rEnd() only after the first element, and
        before that rests on element `|Elements()| - 1 - k`. */
    lemma RBeginToREnd(k: nat)
      requires Valid() && k <= |Elements()|
      ensures Retreat(rBegin(), k) == rEnd() <==> k == |Elements()|
      ensures k < |Elements()| ==> Deref(Retreat(rBegin(), k)) == Elements()[|Elements()| - 1 - k]
    {
      RetreatOnRing(active, k);
      if k < active {
        DistinctAt(ring, active - k, 0);
      }
    }

    /** The cursor on the first element (`tail` when the list is empty). */
    function Begin(): (r: Iterator)
      reads this
      requires Valid()
      ensures r.curr == ring[1]
      ensures r == End() <==> Elements() == []
      ensures Elements() != [] ==> Deref(r) == Elements()[0]
    {
      assert active != 0 ==> ring[1] != tail by {
        if active != 0 {
          DistinctAt(ring, 1, active + 1);
        }
      }
      Iterator(next[head])
    }

    /** The cursor one past the last element: the `tail` marker. */
    function End(): (r: Iterator)
      reads this
      requires Valid()
      ensures r.curr == ring[|Elements()| + 1]
    {
      Iterator(tail)
    }

    /** The cursor on the last element (`head` when the list is empty). */
    function rBegin(): (r: Iterator)
      reads this
      requires Valid()
      ensures r.curr == ring[|Elements()|]
      ensures r == rEnd() <==> Elements() == []
      ensures Elements() != [] ==> Deref(r) == Elements()[|Elements()| - 1]
    {
      assert active != 0 ==> ring[active] != head by {
        if active != 0 {
          DistinctAt(ring, active, 0);
        }
      }
      Iterator(prev[tail])
    }

    /** The cursor one before the first element: the `head` marker. */
    function rEnd(): (r: Iterator)
      reads this
      requires Valid()
      ensures r.curr == ring[0]
    {
      Iterator(head)
    }
  }
}
