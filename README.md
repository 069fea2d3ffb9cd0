# alt2c::List — a ring-buffer doubly-linked list, modelled in Dafny

`alt2c::List<T>` keeps its elements on one circular ring of `Link` nodes.
Two marker links split the ring into two arcs:

- `head_` is "one before the first" and `tail_` is "one past the last".
- `head_.next .. tail_` is the active arc, which holds the elements.
- `tail_.next .. head_` is the free arc, which holds spare links.

A link is never freed while the list lives:

- popping an element only moves a marker;
- removing an element parks its link just after `tail_`;
- pushing reuses a spare link (by moving a marker) before it allocates a new one.

This project models the list in four files.

- `list2c.dfy` (module `Alt2c`) holds class `List` with the list's operations, the cursor type and `operator==`/`!=`. The link fields `Tval_`, `next_` and `prev_` are the sequences `tval`, `next` and `prev`, indexed by link number. `head` and `tail` are link numbers, and `Null` (-1) is the null address. Allocating a link appends to these sequences.
- `rings.dfy` (module `Rings`) proves the link surgery on plain values. This covers splicing a link in, cutting one out, and moving the markers.
- `seqs.dfy` (module `Seqs`) holds sequence helpers. These cover positional insertion and deletion, reading the values along a list of links, first occurrence, and dropping every copy of a value.
- `findings.dfy` (module `Findings`) states the lost-value case of `Insert(t)` for one concrete list, and what a later Remove does with the lost link.

Three pieces of ghost state give the abstract view:

- `ring` lists the cycle forward from `head`.
- `active` places `tail` on it (`tail == ring[active + 1]`).
- `Elements()` reads the values along `ring[1..active + 1]`.

`FreeCount()` is the number of spare links (`|ring| - active - 2`).

The object invariant is `Valid()`. It says that `next` walks `ring` with both markers on it and that `prev` walks it backwards. A link that is not on the ring is allowed. A *loose* link (`Loose(x)`) is one off the ring whose `next` and `prev` are itself, which is what the as-written Insert leaves behind. LinkOut, Remove, `++` and `--` accept such a link as the source does. `Walkable()` is the forward half of the invariant, which is all that `Size`, `Excess` and `CheckLinks` rely on.

A cursor (`ConstListIterator`/`ListIterator`) is the datatype `Iterator(curr)`. Cursor equality is datatype equality, which is identity of the designated link. `operator++`/`--` are `Next`/`Prev`. Dereferencing is `Deref`, which requires a link that exists. Assigning through a `ListIterator` is `Store`.

## Model

| member | source | states |
|---|---|---|
| Alt2c.Equal | list2c.cpp:17-33 | the result is true exactly when both lists hold the same elements in the same order; unequal lengths give false |
| Alt2c.NotEqual | list2c.cpp:36-40 | the result is true exactly when the element sequences differ |
| Alt2c.List.constructor | list2c.cpp:137-142 | a new list is valid and empty, with no spare link, and its ring is the two markers |
| Alt2c.List.Copy | list2c.cpp:159-165 | the new list holds the elements of `x` in order and has no spare link |
| Alt2c.List.Init | list2c.cpp:99-108 | `head` and `tail` form a 2-cycle (each is the other's next and prev); Empty() and Full() both hold; there are no elements and no spare links |
| Alt2c.List.NewLink | list2c.cpp:63-74 | a detached link holding `t`, with null links, is added off the ring; the elements are unchanged |
| Alt2c.List.LinkIn | list2c.cpp:77-84 | `x` becomes the predecessor of `location`: only `next[x]`, `prev[x]`, `prev[location]` and the old predecessor's `next` change, and the ring gains exactly `x` at `location`'s slot; when `location` is `x` itself, `x` becomes a one-link loop and the ring is unchanged |
| Alt2c.List.LinkOut | list2c.cpp:86-95 | the neighbours of `x` are joined to each other, `x` gets null links and is returned, and the ring loses exactly `x`; on a loose link only its own links become null and the ring is unchanged |
| Rings.LinkInWrites | list2c.cpp:77-84 | the four link writes of LinkIn keep the ring walkable and back-linked, splice `x` in at `location`'s slot, and move `tail`'s position on exactly when `x` lands at or before it |
| Rings.LinkOutWrites | list2c.cpp:86-95 | the four link writes of LinkOut keep the ring walkable and back-linked, remove exactly `x`'s position, and move `tail`'s position back exactly when `x` was before it |
| Rings.SpliceIn | list2c.cpp:77-84 | inserting a detached node at position `j` with the rewired links keeps the ring walkable and back-linked |
| Rings.CutOut | list2c.cpp:86-95 | cutting a non-marker position out with the rewired links keeps the ring walkable and back-linked, and the node leaves the ring |
| Rings.RetreatHead | list2c.cpp:208-213 | moving `head` back onto the last spare link rotates the listing and keeps the ring valid, with one more active position |
| Rings.AdvanceHead | list2c.cpp:324-336 | moving `head` onto the first element rotates the listing and keeps the ring valid, with one active position fewer |
| Rings.MoveTail | list2c.cpp:413-419 | moving `tail` to any other position of the same ring keeps it walkable |
| Alt2c.List.PushFront | list2c.cpp:197-214 | `t` becomes the first element and the result is true; with no spare link the ring grows by one link, otherwise a spare link is used: `t` is stored on the `head` link, `head` moves to its `prev`, and no `next` or `prev` link changes |
| Alt2c.List.GrowFront | list2c.cpp:201-207 | with no spare link, a new link is spliced in after `head`: elements become `[t] + old`, and the ring grows by one |
| Alt2c.List.ReuseFront | list2c.cpp:208-213 | with a spare link, `t` is stored in `head`'s link and `head` retreats: elements become `[t] + old`, one spare link fewer, same ring size |
| Alt2c.List.PushBack | list2c.cpp:217-234 | `t` becomes the last element and the result is true; with no spare link the ring grows by one link, otherwise a spare link is used: `t` is stored on the `tail` link, `tail` moves to its `next`, and no `next` or `prev` link changes |
| Alt2c.List.GrowBack | list2c.cpp:221-227 | with no spare link, a new link is spliced in before `tail`: elements become `old + [t]`, and the ring grows by one |
| Alt2c.List.ReuseBack | list2c.cpp:228-233 | with a spare link, `t` is stored in `tail`'s link and `tail` advances: elements become `old + [t]`, one spare link fewer, and the ring is the same cycle |
| Alt2c.List.PopFront | list2c.cpp:324-336 | on an empty list the result is false and nothing changes; otherwise the first element is dropped and becomes a spare link: `head` moves to its old `next`, and the listing of the ring rotates by one |
| Alt2c.List.PopBack | list2c.cpp:338-350 | on an empty list the result is false and nothing changes; otherwise the last element is dropped, the ring is the same cycle, and one more spare link exists |
| Alt2c.List.Clear | list2c.cpp:413-419 | the list becomes empty on the same cycle; every link that held an element is now spare |
| Alt2c.List.Insert | list2c.cpp:237-270 | corrected insertion. On an empty list any cursor counts as End(). A null cursor on a non-empty list is refused and End() returned with nothing changed. Otherwise `t` becomes the element in front of the cursor's one, and the returned cursor designates it. A spare link is used when one exists, and it is the old `tail` link; otherwise the ring grows |
| Alt2c.List.InsertAsWritten | list2c.cpp:237-270 | the source's insertion: with no spare link it behaves as Insert, including a refused null cursor that leaves everything unchanged and any cursor on an empty list. With a spare link and the old `tail` as cursor, the elements are unchanged, one spare link is gone, and the returned link is a one-link loop off the ring. With any other cursor it inserts as Insert does, on the old `tail` link |
| Alt2c.List.InsertAtEnd | list2c.cpp:308-313 | corrected Insert(t): `t` becomes the last element, using a spare link when one exists |
| Alt2c.List.InsertAtEndAsWritten | list2c.cpp:308-313 | the source's Insert(t): with no spare link `t` is appended; with a spare link the elements are unchanged, one spare link is gone, and the cursor returned is on the old `tail` link, now loose |
| Alt2c.List.GrowAt | list2c.cpp:253-257 | with no spare link, a new link holding `t` is spliced in before the cursor's link: `t` lands at the cursor's element position |
| Alt2c.List.ReuseAt | list2c.cpp:259-269 | with a spare link, `t` lands at the cursor's element position on the old `tail` link, and one spare link is used up |
| Alt2c.List.Relink | list2c.cpp:264-265 | the last element's link moves in front of an earlier element's link; the other elements keep their order, and the returned cursor is the moved link |
| Alt2c.List.UnhookLast | list2c.cpp:264 | LinkOut on the last element's link: it leaves the ring and the elements lose their last one |
| Alt2c.List.SpliceBefore | list2c.cpp:265 | LinkIn of a detached link before an element or `tail`: its value joins the elements at the cursor's position |
| Alt2c.List.LoseTail | list2c.cpp:262-265 | with a spare link and the old `tail` as cursor: the elements are unchanged, one spare link is gone, and the old `tail` link is a loop of one link off the ring |
| Alt2c.List.Remove | list2c.cpp:353-371 | a null or marker cursor is handed back with nothing changed. Otherwise the link is parked just after `tail` (never freed) and the cursor on its old successor is returned. An element is dropped and becomes spare; a spare link keeps the elements and the spare count; a loose link is its own successor, so the same cursor comes back, the elements are unchanged and there is one more spare link |
| Alt2c.List.Unhook | list2c.cpp:368 | LinkOut on a non-marker link: it leaves the ring, and an element is dropped exactly when the link held one; a loose link leaves the ring and the elements as they were |
| Alt2c.List.ParkAfterTail | list2c.cpp:369 | LinkIn before `tail.next`: the detached link becomes the first spare link, and the elements are unchanged |
| Alt2c.List.RemoveAll | list2c.cpp:393-411 | Remove(t): the elements become the old ones with every copy of `t` dropped, in order; the count returned is the number of copies; each removed link becomes spare |
| Alt2c.List.RemoveStep | list2c.cpp:400-408 | one round of Remove(t): the link is removed exactly when its element equals `t`, and the cursor moves to the next element to examine |
| Seqs.FilterRound | list2c.cpp:398-409 | one round of Remove(t) on values: the part examined so far is kept, the first remaining element is dropped exactly on a copy, and the count stays consistent |
| Seqs.FilteredRemovesCopies | list2c.cpp:391 | after removing all copies of `t`, no copy is left, every other value keeps its multiplicity, and the length drops by the number of copies |
| Alt2c.List.Size | list2c.cpp:451-463 | the number of links walked from `head.next` to `tail` is the number of elements |
| Alt2c.List.Excess | list2c.cpp:465-476 | the number of links walked from `tail.next` to `head` is the number of spare links |
| Alt2c.List.Capacity | list2c.cpp:478-483 | Capacity is Size plus Excess, which is the ring size minus the two markers |
| Alt2c.List.Empty | list2c.cpp:485-490 | `head.next == tail` holds exactly when there is no element |
| Alt2c.List.Full | list2c.cpp:492-497 | `tail.next == head` holds exactly when there is no spare link |
| Alt2c.List.Front | list2c.cpp:499-519 | the error is reported exactly when the list is empty; the value is the first element, or the `tail` link's value on an empty list |
| Alt2c.List.Back | list2c.cpp:521-541 | the error is reported exactly when the list is empty; the value is the last element, or the `head` link's value on an empty list |
| Alt2c.List.CheckLinks | list2c.cpp:590-616 | the report is exactly the forward and reverse faults of the ring's links, in ring order from `head`; the count check never fires on a walkable ring |
| Alt2c.List.NoFaultsUpTo | list2c.cpp:596-611 | nothing is reported for the first `n` links exactly when each of them passes both checks |
| Alt2c.List.CheckLinksExact | list2c.cpp:590-616 | on a walkable ring, CheckLinks reports nothing exactly when every `prev` link is right, i.e. when the object invariant holds |
| Alt2c.List.Append | list2c.cpp:121-127 | a copy of the elements of `list` is appended in order, using spare links first: the ring size minus the markers becomes the larger of the old value and the new element count |
| Alt2c.List.Assign | list2c.cpp:167-178 | afterwards the elements are those of `rhs`, even on self-assignment; capacity never shrinks, and it grows only as far as the copy needs |
| Alt2c.List.AppendAssign | list2c.cpp:315-322 | `list`'s elements are appended unless `list` is this list, in which case nothing changes |
| Alt2c.List.Clone | list2c.cpp:180-187 | a fresh list holds the same elements and has no spare link |
| Alt2c.List.Store | list2c.cpp:869-873 | writing through a cursor changes exactly that link's value; an element changes exactly where its link is that one |
| Alt2c.List.Includes | list2c.cpp:705-716 | the cursor returned is on the first element equal to `t`; End() is returned exactly when `t` is not an element |
| Alt2c.List.Next | list2c.cpp:794-800 | a null cursor stays null; one on the ring moves to the following link of the ring; one on a loose link stays where it is |
| Alt2c.List.Prev | list2c.cpp:812-818 | a null cursor stays null; one on the ring moves to the preceding link of the ring; one on a loose link stays where it is |
| Alt2c.Iterator.Valid | list2c.cpp:764-768 | the cursor is valid exactly when it is not null |
| Alt2c.List.Deref | list2c.cpp:753-761 | the value stored on the designated link, which on an element's link is that element; a null cursor is excluded by the requires, because Retrieve exits the program on it |
| Alt2c.List.NextOnRing | list2c.cpp:794-800 | stepping from ring position `k` reaches position `k + 1`, wrapping at the end |
| Alt2c.List.AdvanceOnRing | list2c.cpp:794-800 | `n` steps forward from ring position `i` reach position `i + n` |
| Alt2c.List.RetreatOnRing | list2c.cpp:812-818 | `n` steps backward from ring position `i` reach position `i - n` |
| Alt2c.List.BeginToEnd | list2c.h:121-122 | stepping `k` times from Begin() reaches End() exactly after the last element, and before that rests on element `k` |
| Alt2c.List.RBeginToREnd | list2c.h:123-124 | stepping `k` times back from rBegin() reaches rEnd() exactly after the first element, and before that rests on element `size - 1 - k` |
| Alt2c.List.Begin | list2c.cpp:627-632 | the cursor on the first element; it equals End() exactly when the list is empty |
| Alt2c.List.End | list2c.cpp:635-640 | the `tail` marker, one position past the last element |
| Alt2c.List.rBegin | list2c.cpp:643-648 | the cursor on the last element; it equals rEnd() exactly when the list is empty |
| Alt2c.List.rEnd | list2c.cpp:651-656 | the `head` marker, one position before the first element |
| Alt2c.List.SplicedElements | list2c.cpp:77-84 | after a link is spliced in at ring position `j`, its value joins the elements at index `j - 1` exactly when it lands on the active arc |
| Alt2c.List.CutElements | list2c.cpp:86-95 | after a ring position is cut out, its value leaves the elements exactly when it was on the active arc |
| Alt2c.List.AdvancedElements | list2c.h:22 | storing `t` on `tail`'s link and advancing `tail` appends `t` |
| Alt2c.List.RetreatedElements | list2c.h:22 | storing `t` on `head`'s link and retreating `head` prepends `t` |
| Findings.LostInsert | list2c.cpp:308-313 | on the list [1] with one spare link, Insert(7) as written leaves Size 1 and Excess 0, and 7 cannot be found |
| Findings.LostLinkReturned | list2c.cpp:353-371 | after the lost insertion above, Remove on the cursor it returned takes the loose link back as a spare link: Size 1, Excess 1, and 7 is still not found |
| Findings.KeptInsert | list2c.cpp:308-313 | on the same list, the corrected Insert(7) gives Size 2 and Excess 0, and 7 is found |

## Left out

- Display, Dump and `operator<<` are left out: they only write text to a stream.
- The `std::cerr` messages become result values. Front/Back return `emptyError`, CheckLinks returns its lines as `LinkFault` values, and the refusals of Remove(i) and Insert appear as unchanged state.
- Release and the destructor are left out: Dafny has no `delete`.
- Allocation never fails. Because of this, PushFront, PushBack and Insert never take their `return 0` paths.
  - PushFront, PushBack: the result is always true.
- Sort, Merge, Reverse and Shuffle are left out: their bodies are in files that are not part of this model (list2c_macro.cpp, list_sort.cpp, compare.h).
- Several draft bodies that would not compile are left out:
  - the ConstIterator overloads of Insert and Remove;
  - the non-const Includes.
  The const Includes is modelled, and the cursor datatype serves both iterator classes.
- The development constructor `List(T fill)` and `Init(fill)` are left out: they only change the marker fill value.
- Retrieve exits the program on a null cursor. Here that is a precondition of `Deref`.
- Front, Back: the source returns a `T&`, so a client can write through Front() or Back(). Here they return the value; writing through them is `Store(Begin(), v)` or `Store(rBegin(), v)`.
- The element type's `operator==` and `operator!=` (used at list2c.cpp:27, 400 and 712) are Dafny equality on `T`: it is assumed to be an equivalence that decides equal values.
- Postfix `++`/`--` and iterator copy and assignment are left out: they are value copies of a cursor.
- Insert, InsertAsWritten: the cursor must be null, on an element, or `tail`. There is one exception: on an empty list with no spare link, the source moves any cursor to End() and appends `t` (list2c.cpp:243-246), and both members accept any cursor there; Insert also accepts any cursor on an empty list with a spare link. The source also accepts other cursors, which are not modelled. On a non-empty list, or with a spare link in the source's own code:
  - A cursor on `head`, or on any spare link except `tail.next`, puts the link on the free arc, so `t` is not added.
  - A cursor on `tail.next` with a spare link appends `t`, because `tail` has first moved onto that link.
  - A cursor on a loose link makes a loop of two links off the ring (list2c.cpp:80-83), so `t` is lost.
- InsertAsWritten: with a spare link the cursor must be non-null, because the source would dereference the null cursor there.
- InsertAsWritten, Insert: the final `*i = t` (list2c.cpp:267) stores `t` again on a link that already holds it, so it is not modelled as a separate write.
- Remove: the model does not state where a removed spare link is re-parked relative to the other spare links; it states only the head, tail, ring size, the successor returned and `next[tail]`.
- Integer widths (`size_t`) are unbounded here. The counters cannot overflow for any ring that fits in memory.

## Findings

| source | as written | input that shows it | evidently intended | confidence | as-written member | corrected member |
|---|---|---|---|---|---|---|
| list2c.cpp:259-269 | with a spare link, Insert(i, t) writes `t` on `tail`, advances `tail`, unhooks that link and splices it in before `i` without checking `i`; when `i` is the old `tail` (End()), the link is spliced in front of itself and becomes a loop of one link off the ring | Insert(End(), 7) on the list [1] with one spare link (two PushBack, one PopBack) | `t` becomes the last element, as in the no-spare branch; no link is lost | not executed | Alt2c.List.InsertAsWritten | Alt2c.List.Insert |
| list2c.cpp:308-313 | Insert(t) passes End(), so every Insert(t) on a list with a spare link loses `t` and one spare link | Insert(7) on the list [1] with one spare link: Size stays 1, Excess drops to 0, Includes(7) is End() | Insert(t) appends `t`, like PushBack | not executed | Findings.LostInsert | Findings.KeptInsert |
