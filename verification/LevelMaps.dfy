// A growing sorted array standing in for absl::btree_map<uint64_t, uint64_t, Compare>.
module LevelMaps {
  import opened Book
  import opened Ladders

  // ---------------------------------------------------------------------------
  // The operations of a book on the sorted sequence of one side
  // ---------------------------------------------------------------------------

  function LadderOp(s: seq<Level>, op: Op, side: Side, descending: bool): (r: seq<Level>) {
    if op.side != side then s
    else match op
      case Wipe(_) => []
      case Put(_, px, sz) => Upsert(s, SlotOf(s, px, descending), px, sz)
      case Drop(_, px) => Ladders.Erase(s, SlotOf(s, px, descending), px)
  }

  function LadderAfter(s: seq<Level>, ops: seq<Op>, side: Side, descending: bool): (r: seq<Level>)
    decreases |ops|
  {
    if ops == [] then s else LadderAfter(LadderOp(s, ops[0], side, descending), ops[1..], side, descending)
  }

  lemma OpRefines(s: seq<Level>, b: Book, op: Op, side: Side, descending: bool)
    requires IsLadder(s, b.Get(side), descending)
    ensures IsLadder(LadderOp(s, op, side, descending), Do(b, op).Get(side), descending)
  {
    if op.side == side && op.Put? {
      UpsertRefines(s, b.Get(side), descending, SlotOf(s, op.px, descending), op.px, op.sz);
    } else if op.side == side && op.Drop? {
      EraseRefines(s, b.Get(side), descending, SlotOf(s, op.px, descending), op.px);
    }
  }

  /** Any operations on a book keep the sorted sequence of a side a ladder of the plain map. */
  lemma {:induction false} UpdatesRefine(s: seq<Level>, b: Book, ops: seq<Op>, side: Side, descending: bool)
    requires IsLadder(s, b.Get(side), descending)
    ensures IsLadder(LadderAfter(s, ops, side, descending), DoAll(b, ops).Get(side), descending)
    decreases |ops|
  {
    if ops != [] {
      OpRefines(s, b, ops[0], side, descending);
      UpdatesRefine(LadderOp(s, ops[0], side, descending), Do(b, ops[0]), ops[1..], side, descending);
    }
  }

  // ---------------------------------------------------------------------------
  // The array
  // ---------------------------------------------------------------------------

  lemma Inserted(now: seq<Level>, was: seq<Level>, i: nat, level: Level)
    requires i <= |was| && |now| == |was| + 1 && now[i] == level
    requires forall k :: 0 <= k < i ==> now[k] == was[k]
    requires forall k :: i < k < |now| ==> now[k] == was[k - 1]
    ensures now == was[..i] + [level] + was[i..]
  {
  }

  /** Moves a[i..n] one place up. */
  method ShiftUp(a: array<Level>, i: nat, n: nat)
    requires i <= n < a.Length
    modifies a
    ensures forall k :: 0 <= k < i ==> a[k] == old(a[k])
    ensures forall k :: i < k <= n ==> a[k] == old(a[k - 1])
  {
    var j := n;
    while i < j
      invariant i <= j <= n
      invariant forall k :: 0 <= k <= j ==> a[k] == old(a[k])
      invariant forall k :: j < k <= n ==> a[k] == old(a[k - 1])
    {
      a[j] := a[j - 1];
      j := j - 1;
    }
  }

  /** Moves a[i + 1..n] one place down. */
  method ShiftDown(a: array<Level>, i: nat, n: nat)
    requires i < n <= a.Length
    modifies a
    ensures forall k :: 0 <= k < i ==> a[k] == old(a[k])
    ensures forall k :: i <= k < n - 1 ==> a[k] == old(a[k + 1])
  {
    var j := i;
    while j + 1 < n
      invariant i <= j < n
      invariant forall k :: 0 <= k < i ==> a[k] == old(a[k])
      invariant forall k :: i <= k < j ==> a[k] == old(a[k + 1])
      invariant forall k :: j < k < n ==> a[k] == old(a[k])
    {
      a[j] := a[j + 1];
      j := j + 1;
    }
  }

  class LevelMap {
    const descending: bool
    var slots: array<Level>
    var size: nat
    ghost var contents: map<nat, nat>
    ghost var Repr: set<object>

    ghost predicate Shape()
      reads this
    {
      this in Repr && slots in Repr && this != slots as object && size <= slots.Length
    }

    ghost predicate Valid()
      reads this, Repr
    {
      Shape() && IsLadder(slots[..size], contents, descending)
    }

    constructor (descending: bool)
      ensures Valid() && fresh(Repr)
      ensures contents == map[] && this.descending == descending
    {
      this.descending := descending;
      slots := new Level[0];
      size := 0;
      contents := map[];
      new;
      Repr := {this, slots};
    }

    /** clear() */
    method Clear()
      requires Valid()
      modifies this
      ensures Valid() && Repr == old(Repr)
      ensures contents == map[]
    {
      size := 0;
      contents := map[];
    }

    /** lower_bound by binary search. */
    method LowerBound(px: nat) returns (i: nat)
      requires Valid()
      ensures IsSlot(slots[..size], px, descending, i)
    {
      i := 0;
      var hi := size;
      while i < hi
        invariant 0 <= i <= hi <= size
        invariant forall j :: 0 <= j < i ==> Before(descending, slots[j].px, px)
        invariant forall j :: hi <= j < size ==> !Before(descending, slots[j].px, px)
      {
        var mid := (i + hi) / 2;
        if Before(descending, slots[mid].px, px) {
          forall j | 0 <= j <= mid ensures Before(descending, slots[j].px, px) {
            SortedAt(slots[..size], descending, j, mid);
          }
          i := mid + 1;
        } else {
          forall j | mid <= j < size ensures !Before(descending, slots[j].px, px) {
            SortedAt(slots[..size], descending, mid, j);
          }
          hi := mid;
        }
      }
    }

    /** Doubles the array when it is full. */
    method Grow()
      requires Shape()
      modifies this`slots, this`Repr
      ensures Shape() && size < slots.Length
      ensures fresh(Repr - old(Repr))
      ensures fresh(slots) || slots == old(slots)
      ensures slots[..size] == old(slots[..size])
    {
      if size == slots.Length {
        var bigger := new Level[2 * size + 1];
        var j := 0;
        while j < size
          invariant 0 <= j <= size && bigger[..j] == slots[..j]
          modifies bigger
        {
          bigger[j] := slots[j];
          j := j + 1;
        }
        slots := bigger;
        Repr := Repr + {bigger};
      }
    }

    method InsertAt(i: nat, level: Level)
      requires Shape() && i <= size
      modifies this`slots, this`Repr, this`size, slots
      ensures Shape() && fresh(Repr - old(Repr))
      ensures slots[..size] == old(slots[..size])[..i] + [level] + old(slots[..size])[i..]
    {
      ghost var was := slots[..size];
      Grow();
      assert slots[..size] == was;
      ShiftUp(slots, i, size);
      slots[i] := level;
      size := size + 1;
      Inserted(slots[..size], was, i, level);
    }

    method RemoveAt(i: nat)
      requires Shape() && i < size
      modifies this`size, slots
      ensures Shape()
      ensures slots[..size] == old(slots[..size])[..i] + old(slots[..size])[i + 1..]
    {
      ghost var was := slots[..size];
      ShiftDown(slots, i, size);
      size := size - 1;
      assert slots[..size] == was[..i] + was[i + 1..];
    }

    /** operator[](px) = sz */
    method Assign(px: nat, sz: nat)
      requires Valid()
      modifies Repr
      ensures Valid() && fresh(Repr - old(Repr))
      ensures contents == old(contents)[px := sz]
    {
      var i := LowerBound(px);
      ghost var was := slots[..size];
      UpsertRefines(was, contents, descending, i, px, sz);
      if i < size && slots[i].px == px {
        slots[i] := Level(px, sz);
        assert slots[..size] == was[i := Level(px, sz)];
      } else {
        InsertAt(i, Level(px, sz));
      }
      contents := contents[px := sz];
    }

    /** erase(px); an absent key is ignored. */
    method Erase(px: nat)
      requires Valid()
      modifies Repr
      ensures Valid() && Repr == old(Repr)
      ensures contents == old(contents) - {px}
    {
      var i := LowerBound(px);
      EraseRefines(slots[..size], contents, descending, i, px);
      if i < size && slots[i].px == px {
        RemoveAt(i);
      }
      contents := contents - {px};
    }

    /** The operations of a book on the side that this map holds, whatever they do on the other side. */
    method PerformAll(ops: seq<Op>, side: Side, ghost b: Book)
      requires Valid() && b.Get(side) == contents
      modifies Repr
      ensures Valid() && fresh(Repr - old(Repr))
      ensures contents == DoAll(b, ops).Get(side)
      ensures slots[..size] == LadderAfter(old(slots[..size]), ops, side, descending)
    {
      ghost var was, now := slots[..size], b;
      var i := 0;
      while i < |ops|
        invariant 0 <= i <= |ops|
        invariant Valid() && fresh(Repr - old(Repr))
        invariant contents == now.Get(side) && DoAll(now, ops[i..]) == DoAll(b, ops)
      {
        Perform(ops[i], side);
        now := Do(now, ops[i]);
        assert ops[i..][0] == ops[i] && ops[i..][1..] == ops[i + 1..];
        i := i + 1;
      }
      UpdatesRefine(was, b, ops, side, descending);
      LadderUnique(slots[..size], LadderAfter(was, ops, side, descending), contents, descending);
    }

    method Perform(op: Op, side: Side)
      requires Valid()
      modifies Repr
      ensures Valid() && fresh(Repr - old(Repr))
      ensures forall b: Book :: b.Get(side) == old(contents) ==> contents == Do(b, op).Get(side)
    {
      if op.side == side {
        match op
        case Wipe(_) => Clear();
        case Put(_, px, sz) => Assign(px, sz);
        case Drop(_, px) => Erase(px);
      }
    }
  }
}
