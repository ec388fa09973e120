// Bounded histories: boost::circular_buffer for trades and a capped deque for log lines.
module Histories {

  /** The last n elements, or all of them. */
  function Last<T>(s: seq<T>, n: nat): (r: seq<T>) {
    if |s| <= n then s else s[|s| - n..]
  }

  /** Keeping the last n at every step is the same as keeping the last n at the end. */
  lemma LastOfLast<T>(s: seq<T>, t: seq<T>, n: nat)
    ensures Last(Last(s, n) + t, n) == Last(s + t, n)
  {
  }

  lemma LastOfSum<T>(s: seq<T>, t: seq<T>, u: seq<T>, n: nat)
    ensures Last(Last(s + t, n) + u, n) == Last(s + (t + u), n)
  {
    LastOfLast(s + t, u, n);
    assert s + t + u == s + (t + u);
  }

  /** A wraparound array: the oldest element is at head, and a push onto a full buffer overwrites it. */
  class Ring<T(0)> {
    const slots: array<T>
    var head: nat
    var size: nat

    ghost predicate Valid()
      reads this
    {
      && size <= slots.Length
      && (head < slots.Length || head == slots.Length == 0)
    }

    function Slot(i: nat): (k: nat)
      reads this
      requires Valid() && i < slots.Length
      ensures k < slots.Length
    {
      if head + i < slots.Length then head + i else head + i - slots.Length
    }

    ghost function Contents(): (s: seq<T>)
      reads this, slots
      requires Valid()
    {
      seq(size, i requires 0 <= i < size && Valid() reads this, slots => slots[Slot(i)])
    }

    constructor (capacity: nat)
      ensures Valid() && fresh(slots) && slots.Length == capacity && Contents() == []
    {
      slots := new T[capacity];
      head, size := 0, 0;
    }

    /** push_back */
    method PushBack(x: T)
      requires Valid()
      modifies this, slots
      ensures Valid()
      ensures Contents() == Last(old(Contents()) + [x], slots.Length)
    {
      if slots.Length == 0 {
        return;
      }
      ghost var was := Contents();
      if size < slots.Length {
        slots[Slot(size)] := x;
        size := size + 1;
        assert Contents() == was + [x];
      } else {
        slots[head] := x;
        head := if head + 1 == slots.Length then 0 else head + 1;
        assert Contents() == was[1..] + [x];
      }
    }
  }

  /** LogBox::log_ring_ and on_log_lines. */
  class LogBox {
    var ring: seq<string>

    constructor ()
      ensures ring == []
    {
      ring := [];
    }

    /** Pops the oldest line when the deque is full, then pushes, line by line. */
    method OnLogLines(lines: seq<string>)
      requires |ring| <= 100
      modifies this
      ensures ring == Last(old(ring) + lines, 100) && |ring| <= 100
    {
      for i := 0 to |lines|
        invariant ring == Last(old(ring) + lines[..i], 100)
      {
        LastOfLast(old(ring) + lines[..i], [lines[i]], 100);
        assert old(ring) + lines[..i] + [lines[i]] == old(ring) + lines[..i + 1];
        if |ring| >= 100 {
          ring := ring[1..];
        }
        ring := ring + [lines[i]];
      }
      assert lines[..|lines|] == lines;
    }
  }
}
