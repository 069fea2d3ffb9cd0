/**
 * Sequence helpers shared by the ring model: positional insertion and
 * deletion, reading the values of a list of node ids, first occurrence,
 * and removal of every copy of a value.
 */
module Seqs {

  function Max(a: int, b: int): int
  {
    if a < b then b else a
  }

  /** `s` with `x` placed at index `j` (everything from `j` on moves up one). */
  function InsertAt<T>(s: seq<T>, j: int, x: T): (r: seq<T>)
    requires 0 <= j <= |s|
    ensures |r| == |s| + 1
  {
    s[..j] + [x] + s[j..]
  }

  /** `s` without its element at index `j`. */
  function Without<T>(s: seq<T>, j: int): (r: seq<T>)
    requires 0 <= j < |s|
    ensures |r| == |s| - 1
  {
    s[..j] + s[j + 1..]
  }

  /** The values stored at the node ids `ids`, in order. */
  function Gather<T>(vals: seq<T>, ids: seq<int>): (r: seq<T>)
    requires forall k :: 0 <= k < |ids| ==> 0 <= ids[k] < |vals|
    ensures |r| == |ids|
    ensures forall k {:trigger r[k]} :: 0 <= k < |ids| ==> r[k] == vals[ids[k]]
  {
    seq(|ids|, k requires 0 <= k < |ids| => vals[ids[k]])
  }

  /** Index of the first element of `s` equal to `t`, or `|s|` when there is none. */
  function FirstIndex<T(==)>(s: seq<T>, t: T): (k: nat)
    ensures k <= |s|
    ensures k < |s| ==> s[k] == t
    ensures forall j :: 0 <= j < k ==> s[j] != t
  {
    if s == [] then 0
    else if s[0] == t then 0
    else 1 + FirstIndex(s[1..], t)
  }

  /** The first index is the one before which no copy occurs. */
  lemma FirstIndexIs<T>(s: seq<T>, t: T, k: int)
    requires 0 <= k <= |s| && forall j :: 0 <= j < k ==> s[j] != t
    requires k < |s| ==> s[k] == t
    ensures FirstIndex(s, t) == k
  {
  }

  /** Number of copies of `t` in `s`. */
  function Count<T(==)>(s: seq<T>, t: T): nat
  {
    if s == [] then 0
    else (if s[0] == t then 1 else 0) + Count(s[1..], t)
  }

  /** Count agrees with the multiplicity of `t` in the multiset of `s`. */
  lemma {:induction false} CountIsMultiplicity<T>(s: seq<T>, t: T)
    ensures Count(s, t) == multiset(s)[t]
  {
    if s != [] {
      CountIsMultiplicity(s[1..], t);
      assert s == [s[0]] + s[1..];
    }
  }

  /** `s` with every element equal to `t` dropped, the rest kept in order. */
  function Filtered<T(==)>(s: seq<T>, t: T): seq<T>
  {
    if s == [] then []
    else (if s[0] == t then [] else [s[0]]) + Filtered(s[1..], t)
  }

  /** Filtered removes exactly the copies of `t`: no copy is left, every other
      value keeps its multiplicity, and the length drops by the number of copies. */
  lemma {:induction false} FilteredRemovesCopies<T>(s: seq<T>, t: T)
    ensures t !in Filtered(s, t)
    ensures multiset(Filtered(s, t)) == multiset(s)[t := 0]
    ensures |Filtered(s, t)| + multiset(s)[t] == |s|
  {
    if s != [] {
      FilteredRemovesCopies(s[1..], t);
      MultisetCons(s, t);
    }
  }

  /** How the first element contributes to the multiset with `t`'s copies removed. */
  lemma MultisetCons<T>(s: seq<T>, t: T)
    requires s != []
    ensures multiset(s) == multiset{s[0]} + multiset(s[1..])
    ensures multiset(s)[t := 0] == (if s[0] == t then multiset{} else multiset{s[0]}) + multiset(s[1..])[t := 0]
  {
    assert s == [s[0]] + s[1..];
  }

  /** One round of removing the copies of `t` from `e`, seen on values: the
      list `els == done + rest` becomes `s'`, which drops the first element
      of `rest` exactly when `hit` says it is a copy.  The finished part
      becomes `done'` and the count goes up by one on a hit. */
  lemma FilterRound<T>(e: seq<T>, t: T, done: seq<T>, rest: seq<T>, count: int, els: seq<T>, s': seq<T>, hit: bool)
    returns (done': seq<T>)
    requires rest != [] && els == done + rest
    requires Filtered(e, t) == done + Filtered(rest, t)
    requires count + Count(rest, t) == Count(e, t)
    requires hit <==> els[|done|] == t
    requires s' == if hit then Without(els, |done|) else els
    ensures |done'| == if hit then |done| else |done| + 1
    ensures s' == done' + rest[1..]
    ensures Filtered(e, t) == done' + Filtered(rest[1..], t)
    ensures (if hit then count + 1 else count) + Count(rest[1..], t) == Count(e, t)
  {
    assert rest == [rest[0]] + rest[1..];
    assert (done + rest)[|done|] == rest[0];
    if hit {
      done' := done;
      assert Filtered(rest, t) == Filtered(rest[1..], t);
      WithoutAfter(done, rest[0], rest[1..]);
    } else {
      done' := done + [rest[0]];
      AppendAssoc(done, [rest[0]], Filtered(rest[1..], t));
      AppendAssoc(done, [rest[0]], rest[1..]);
    }
  }

  lemma AppendAssoc<T>(a: seq<T>, b: seq<T>, c: seq<T>)
    ensures a + (b + c) == (a + b) + c
  {
  }

  /** Nothing left to filter: the finished part is everything. */
  lemma AppendNil<T>(done: seq<T>, rest: seq<T>, t: T)
    requires rest == []
    ensures done + rest == done && done + Filtered(rest, t) == done
  {
  }

  /** Deleting the element right after a prefix `a`. */
  lemma WithoutAfter<T>(a: seq<T>, x: T, b: seq<T>)
    ensures Without(a + ([x] + b), |a|) == a + b
  {
    var s := a + ([x] + b);
    assert s[..|a|] == a;
    assert s[|a| + 1..] == b;
  }

  /** Deleting the last element is dropping it. */
  lemma WithoutLast<T>(s: seq<T>)
    requires s != []
    ensures Without(s, |s| - 1) == s[..|s| - 1]
  {
  }

  /** Reading the values of a list of ids after splicing an id in splices its value in. */
  lemma GatherInsertAt<T>(vals: seq<T>, ids: seq<int>, j: int, x: int)
    requires forall k :: 0 <= k < |ids| ==> 0 <= ids[k] < |vals|
    requires 0 <= x < |vals| && 0 <= j <= |ids|
    ensures Gather(vals, InsertAt(ids, j, x)) == InsertAt(Gather(vals, ids), j, vals[x])
  {
    var ids' := InsertAt(ids, j, x);
    assert forall k :: 0 <= k < |ids'| ==> ids'[k] == if k < j then ids[k] else if k == j then x else ids[k - 1];
  }

  /** Reading the values of a list of ids after deleting a position deletes that value. */
  lemma GatherWithout<T>(vals: seq<T>, ids: seq<int>, j: int)
    requires forall k :: 0 <= k < |ids| ==> 0 <= ids[k] < |vals|
    requires 0 <= j < |ids|
    ensures Gather(vals, Without(ids, j)) == Without(Gather(vals, ids), j)
  {
    var ids' := Without(ids, j);
    assert forall k :: 0 <= k < |ids'| ==> ids'[k] == if k < j then ids[k] else ids[k + 1];
  }

  /** Values stored at ids outside `ids` do not matter. */
  lemma GatherSame<T>(v1: seq<T>, v2: seq<T>, ids: seq<int>)
    requires forall k :: 0 <= k < |ids| ==> 0 <= ids[k] < |v1| && 0 <= ids[k] < |v2| && v1[ids[k]] == v2[ids[k]]
    ensures Gather(v1, ids) == Gather(v2, ids)
  {
  }

  /** A window of `s` that contains the insertion point. */
  lemma InsertAtSlice<T>(s: seq<T>, j: int, x: T, a: int, b: int)
    requires 0 <= a <= j <= b <= |s|
    ensures InsertAt(s, j, x)[a..b + 1] == InsertAt(s[a..b], j - a, x)
  {
  }

  /** A window of `s` that ends at or before the insertion point. */
  lemma InsertAtSliceBefore<T>(s: seq<T>, j: int, x: T, a: int, b: int)
    requires 0 <= a <= b <= j <= |s|
    ensures InsertAt(s, j, x)[a..b] == s[a..b]
  {
  }

  /** A window of `s` that contains the deleted position. */
  lemma WithoutSlice<T>(s: seq<T>, k: int, a: int, b: int)
    requires 0 <= a <= k < b <= |s|
    ensures Without(s, k)[a..b - 1] == Without(s[a..b], k - a)
  {
    var w, v := Without(s, k)[a..b - 1], Without(s[a..b], k - a);
    assert |w| == |v|;
    forall i | 0 <= i < |w|
      ensures w[i] == v[i]
    {
      if a + i < k {
        assert w[i] == s[a + i] == v[i];
      } else {
        assert w[i] == s[a + i + 1] == v[i];
      }
    }
  }

  /** A window of `s` that ends at or before the deleted position. */
  lemma WithoutSliceBefore<T>(s: seq<T>, k: int, a: int, b: int)
    requires 0 <= a <= b <= k < |s|
    ensures Without(s, k)[a..b] == s[a..b]
  {
  }

  /** Reading the values of two lists of ids one after the other. */
  lemma GatherConcat<T>(vals: seq<T>, a: seq<int>, b: seq<int>)
    requires forall k :: 0 <= k < |a| ==> 0 <= a[k] < |vals|
    requires forall k :: 0 <= k < |b| ==> 0 <= b[k] < |vals|
    ensures Gather(vals, a + b) == Gather(vals, a) + Gather(vals, b)
  {
    var ab := a + b;
    assert forall k :: 0 <= k < |ab| ==> ab[k] == if k < |a| then a[k] else b[k - |a|];
  }

  /** Growing a prefix of `s` by one element, after a fixed front part `a`. */
  lemma ExtendPrefix<T>(a: seq<T>, s: seq<T>, k: int)
    requires 0 <= k < |s|
    ensures a + s[..k] + [s[k]] == a + s[..k + 1]
  {
    assert s[..k + 1] == s[..k] + [s[k]];
  }

  /** Inserting at either end is prepending or appending. */
  lemma InsertAtEnds<T>(s: seq<T>, x: T)
    ensures InsertAt(s, 0, x) == [x] + s
    ensures InsertAt(s, |s|, x) == s + [x]
  {
  }
}
