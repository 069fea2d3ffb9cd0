/**
 * Insert(t) on a list that owns a spare link, stated for one concrete list:
 * the elements are [1] and one link is spare (two PushBack, one PopBack).
 * As written, inserting 7 at End() loses the value and the spare link;
 * the corrected insertion appends it.
 */
module Findings {
  import opened Alt2c

  /** Insert(t) as written: the size stays 1, the spare link is gone and
      7 cannot be found. */
  method LostInsert() returns (sizeBefore: nat, excessBefore: nat, sizeAfter: nat, excessAfter: nat, found: bool)
    ensures sizeBefore == 1 && excessBefore == 1
    ensures sizeAfter == 1 && excessAfter == 0 && !found
  {
    var l := new List<int>();
    var ok := l.PushBack(1);
    ok := l.PushBack(2);
    ok := l.PopBack();
    sizeBefore := l.Size();
    excessBefore := l.Excess();
    var r := l.InsertAtEndAsWritten(7);
    sizeAfter := l.Size();
    excessAfter := l.Excess();
    var i := l.Includes(7);
    found := i != l.End();
  }

  /** Remove on the cursor the as-written Insert(t) hands back: the loose
      link is taken back onto the ring as a spare link, but 7 stays lost. */
  method LostLinkReturned() returns (sizeAfter: nat, excessAfter: nat, found: bool)
    ensures sizeAfter == 1 && excessAfter == 1 && !found
  {
    var l := new List<int>();
    var ok := l.PushBack(1);
    ok := l.PushBack(2);
    ok := l.PopBack();
    var r := l.InsertAtEndAsWritten(7);
    r := l.Remove(r);
    sizeAfter := l.Size();
    excessAfter := l.Excess();
    var i := l.Includes(7);
    found := i != l.End();
  }

  /** Insert(t) corrected: 7 becomes the last element on the spare link. */
  method KeptInsert() returns (sizeBefore: nat, excessBefore: nat, sizeAfter: nat, excessAfter: nat, found: bool)
    ensures sizeBefore == 1 && excessBefore == 1
    ensures sizeAfter == 2 && excessAfter == 0 && found
  {
    var l := new List<int>();
    var ok := l.PushBack(1);
    ok := l.PushBack(2);
    ok := l.PopBack();
    sizeBefore := l.Size();
    excessBefore := l.Excess();
    var r := l.InsertAtEnd(7);
    sizeAfter := l.Size();
    excessAfter := l.Excess();
    var i := l.Includes(7);
    found := i != l.End();
  }
}
