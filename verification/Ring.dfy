/** A fixed-capacity ring over an array: `count` slots are in use, starting at `head` and wrapping around. */
module Ring {

  function RemoveIndex<T>(s: seq<T>, k: nat): (r: seq<T>)
    requires k < |s|
    ensures |r| == |s| - 1
  {
    s[..k] + s[k + 1..]
  }

  lemma WrapOnce(x: nat, n: nat)
    requires 0 < n && x < 2 * n
    ensures x % n == if x < n then x else x - n
  {
    if x >= n {
      assert x == n + (x - n);
      assert (x - n) / n == 0;
    }
  }

  /** A sequence in which the elements from `index + 1` to `current` have moved one position forward. */
  ghost function Shifted<T>(s: seq<T>, index: nat, current: nat): seq<T>
    requires index <= current < |s|
  {
    s[..index] + s[index + 1..current + 1] + s[current..]
  }

  lemma ShiftedAtStart<T>(s: seq<T>, index: nat)
    requires index < |s|
    ensures Shifted(s, index, index) == s
  {
  }

  lemma ShiftStep<T>(s: seq<T>, index: nat, current: nat)
    requires index <= current && current + 1 < |s|
    ensures var t := Shifted(s, index, current); |t| == |s| && t[current := t[current + 1]] == Shifted(s, index, current + 1)
  {
  }

  lemma ShiftedAtEnd<T>(s: seq<T>, index: nat)
    requires index < |s|
    ensures Shifted(s, index, |s| - 1)[..|s| - 1] == RemoveIndex(s, index)
  {
  }

  ghost predicate AllEqual<T>(s: seq<T>, x: T) {
    forall i | 0 <= i < |s| :: s[i] == x
  }

  lemma RotatedTail<T>(s: seq<T>, count: nat, x: T)
    requires 0 < count <= |s| && s[0] == x && AllEqual(s[count..], x)
    ensures var t := s[1..] + s[..1]; AllEqual(t[count - 1..], x) && t[..count - 1] == s[1..count]
  {
    var t := s[1..] + s[..1];
    assert t[count - 1..] == s[count..] + s[..1];
  }

  class Ring<T> {
    const slots: array<T>
    const blank: T
    var head: nat
    var count: nat

    constructor (capacity: nat, blank: T)
      ensures Valid() && slots.Length == capacity && this.blank == blank && Contents() == [] && fresh(slots)
    {
      slots := new T[capacity](_ => blank);
      this.blank := blank;
      head, count := 0, 0;
    }

    /** All slots, in logical order. */
    ghost function Window(): (s: seq<T>)
      requires head <= slots.Length
      reads this, slots
      ensures |s| == slots.Length
    {
      slots[head..] + slots[..head]
    }

    /** The used part is inside the array, and slots outside it retain nothing. */
    ghost predicate Valid()
      reads this, slots
    {
      && count <= slots.Length && (head == 0 || head < slots.Length)
      && AllEqual(Window()[count..], blank)
    }

    ghost function Contents(): (s: seq<T>)
      requires Valid()
      reads this, slots
      ensures |s| == count
    {
      Window()[..count]
    }

    /** `physicalIndex`. */
    function Physical(i: nat): (p: nat)
      requires head < slots.Length && i < slots.Length
      reads this, slots
      ensures p < slots.Length && slots[p] == Window()[i]
    {
      WrapOnce(head + i, slots.Length);
      (head + i) % slots.Length
    }

    method At(i: nat) returns (x: T)
      requires Valid() && i < count
      ensures x == Contents()[i]
    {
      x := slots[Physical(i)];
    }

    method Update(i: nat, x: T)
      requires head < slots.Length && i < slots.Length
      modifies slots
      ensures Window() == old(Window())[i := x]
    {
      WrapOnce(head + i, slots.Length);
      var p := Physical(i);
      ghost var before := slots[..];
      slots[p] := x;
      assert slots[..] == before[p := x];
      assert slots[head..] == slots[..][head..] && slots[..head] == slots[..][..head];
    }

    method Put(i: nat, x: T)
      requires Valid() && i < count
      modifies slots
      ensures Valid() && Contents() == old(Contents())[i := x]
    {
      Update(i, x);
    }

    method PushBack(x: T)
      requires Valid() && count < slots.Length
      modifies slots, this`count
      ensures Valid() && Contents() == old(Contents()) + [x]
    {
      Update(count, x);
      count := count + 1;
    }

    method PopFront() returns (x: T)
      requires Valid() && count > 0
      modifies slots, this`head, this`count
      ensures Valid() && old(Contents()) == [x] + Contents() && x == old(Contents())[0]
    {
      x := At(0);
      Update(0, blank);
      ghost var window := Window();
      assert window[count..] == old(Window())[count..];
      Rotate();
      RotatedTail(window, count, blank);
      count := count - 1;
    }

    /** Moves the start of the window one slot on. */
    method Rotate()
      requires head < slots.Length
      modifies this`head
      ensures head < slots.Length && Window() == old(Window())[1..] + old(Window())[..1]
    {
      WrapOnce(head + 1, slots.Length);
      head := (head + 1) % slots.Length;
    }

    method DropBack()
      requires Valid() && count > 0
      modifies slots, this`count
      ensures Valid() && Contents() == old(Contents())[..old(count) - 1]
    {
      Update(count - 1, blank);
      count := count - 1;
    }

    /** `removeAt`: closes the gap by moving the later elements one position forward. */
    method RemoveAt(index: nat)
      requires Valid() && index < count
      modifies slots, this`count
      ensures Valid() && Contents() == RemoveIndex(old(Contents()), index)
    {
      hide AllEqual, Shifted, RemoveIndex, Window;
      ghost var before := Contents();
      var current := index;
      ShiftedAtStart(before, index);
      while current + 1 < count
        invariant index <= current < count == |before|
        invariant Valid() && Contents() == Shifted(before, index, current)
      {
        var next := At(current + 1);
        ShiftStep(before, index, current);
        Put(current, next);
        current := current + 1;
      }
      ShiftedAtEnd(before, index);
      DropBack();
    }

    method Clear()
      requires Valid()
      modifies slots, this`head, this`count
      ensures Valid() && Contents() == [] && head == 0
    {
      ghost var window := Window();
      for i := 0 to count
        invariant head == old(head) && count == old(count)
        invariant Window()[count..] == window[count..] && AllEqual(Window()[..i], blank)
      {
        Update(i, blank);
      }
      ResetHead();
      count := 0;
    }

    /** With nothing retained anywhere, the window may start anywhere. */
    method ResetHead()
      requires (head == 0 || head < slots.Length) && AllEqual(Window(), blank)
      modifies this`head
      ensures head == 0 && AllEqual(Window(), blank)
    {
      forall p | 0 <= p < slots.Length
        ensures slots[p] == blank
      {
        assert slots[p] == Window()[if p >= head then p - head else p + slots.Length - head];
      }
      head := 0;
    }
  }
}
