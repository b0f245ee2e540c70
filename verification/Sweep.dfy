/** A sweep over the slots of an image: `step` bytes at a time while a whole slot fits. */
module Sweep {
  import opened Words

  function SweepFrom<T>(at: nat -> seq<T>, off: nat, step: nat, len: nat): seq<T>
    requires step > 0
    decreases if off <= len then len - off else 0
  {
    if off + step > len then [] else at(off) + SweepFrom(at, off + step, step, len)
  }

  lemma SweepStep<T>(at: nat -> seq<T>, off: nat, step: nat, len: nat, out: seq<T>)
    requires step > 0 && off + step <= len
    ensures out + SweepFrom(at, off, step, len) == (out + at(off)) + SweepFrom(at, off + step, step, len)
  {}

  /** What the sweep finds, it found at a slot: some whole number of steps on. */
  lemma {:induction false} FoundAtSlot<T>(at: nat -> seq<T>, off: nat, step: nat, len: nat, x: T) returns (pos: nat)
    requires step > 0 && off % step == 0 && x in SweepFrom(at, off, step, len)
    ensures pos % step == 0 && off <= pos && pos + step <= len && x in at(pos)
    decreases if off <= len then len - off else 0
  {
    if x in at(off) {
      pos := off;
    } else {
      NextSlot(off, step);
      pos := FoundAtSlot(at, off + step, step, len, x);
    }
  }

  /** What lies at a slot the sweep reaches is found. */
  lemma {:induction false} SlotIsFound<T>(at: nat -> seq<T>, off: nat, pos: nat, step: nat, len: nat, x: T)
    requires step > 0 && off % step == 0 && pos % step == 0 && off <= pos && pos + step <= len && x in at(pos)
    ensures x in SweepFrom(at, off, step, len)
    decreases if off <= len then len - off else 0
  {
    if off < pos {
      MultiplesApart(off, pos, step);
      NextSlot(off, step);
      SlotIsFound(at, off + step, pos, step, len, x);
    }
  }

  /** One find for each marked slot: the finds line up with the marks, which increase strictly. */
  lemma {:induction false} FindsMatchMarks<T>(marks: nat -> seq<nat>, at: nat -> seq<T>, off: nat, step: nat, len: nat)
    requires step > 0
    requires forall o: nat :: |at(o)| == |marks(o)| && (marks(o) == [] || marks(o) == [o])
    ensures var ms, xs := SweepFrom(marks, off, step, len), SweepFrom(at, off, step, len);
      && |ms| == |xs|
      && (forall k :: 0 <= k < |ms| ==> off <= ms[k] && at(ms[k]) == [xs[k]])
      && (forall j, k :: 0 <= j < k < |ms| ==> ms[j] < ms[k])
    decreases if off <= len then len - off else 0
  {
    if off + step <= len {
      FindsMatchMarks(marks, at, off + step, step, len);
    }
  }

  lemma NextSlot(off: nat, step: nat)
    requires step > 0 && off % step == 0
    ensures (off + step) % step == 0
  {
    DivModFact(off, step);
    MulSucc(off / step, step);
    DivModUnique(off + step, step, off / step + 1, 0);
  }
}
