// Ordered maps as strictly sorted sequences of levels: the pure part of the stand-in for absl::btree_map.
module Ladders {

  datatype Level = Level(px: nat, sz: nat)

  /** The comparator: std::greater for bids, std::less for asks. */
  predicate Before(descending: bool, a: nat, b: nat) {
    if descending then a > b else a < b
  }

  ghost predicate Sorted(s: seq<Level>, descending: bool) {
    forall i, j :: 0 <= i < j < |s| ==> Before(descending, s[i].px, s[j].px)
  }

  /** s lists exactly the entries of m. */
  ghost predicate Lists(s: seq<Level>, m: map<nat, nat>) {
    && (forall i :: 0 <= i < |s| ==> s[i].px in m && m[s[i].px] == s[i].sz)
    && (forall p :: p in m ==> exists i :: 0 <= i < |s| && s[i].px == p)
  }

  ghost predicate IsLadder(s: seq<Level>, m: map<nat, nat>, descending: bool) {
    Sorted(s, descending) && Lists(s, m)
  }

  /** i is where px is, or where it would be inserted: std lower_bound. */
  ghost predicate IsSlot(s: seq<Level>, px: nat, descending: bool, i: nat) {
    && i <= |s|
    && (forall j :: 0 <= j < i ==> Before(descending, s[j].px, px))
    && (forall j :: i <= j < |s| ==> !Before(descending, s[j].px, px))
  }

  predicate Holds(s: seq<Level>, px: nat, i: nat) {
    i < |s| && s[i].px == px
  }

  /** operator[] followed by assignment, given the slot. */
  function Upsert(s: seq<Level>, i: nat, px: nat, sz: nat): (r: seq<Level>)
    requires i <= |s|
  {
    if Holds(s, px, i) then s[i := Level(px, sz)] else s[..i] + [Level(px, sz)] + s[i..]
  }

  /** erase(key), given the slot. */
  function Erase(s: seq<Level>, i: nat, px: nat): (r: seq<Level>)
    requires i <= |s|
  {
    if Holds(s, px, i) then s[..i] + s[i + 1..] else s
  }

  lemma SortedAt(s: seq<Level>, descending: bool, i: int, k: int)
    requires Sorted(s, descending)
    ensures 0 <= i < k < |s| ==> Before(descending, s[i].px, s[k].px)
  {
  }

  lemma ListsAt(s: seq<Level>, m: map<nat, nat>, i: int)
    requires Lists(s, m)
    ensures 0 <= i < |s| ==> s[i].px in m
  {
  }

  lemma SlotFindsKey(s: seq<Level>, m: map<nat, nat>, descending: bool, i: nat, px: nat)
    requires IsLadder(s, m, descending) && IsSlot(s, px, descending, i)
    ensures px in m <==> Holds(s, px, i)
  {
    if px in m {
      var k :| 0 <= k < |s| && s[k].px == px;
      assert i <= k;
      SortedAt(s, descending, i, k);
    }
  }

  lemma ListsEntry(s: seq<Level>, m: map<nat, nat>, j: nat)
    requires Lists(s, m) && j < |s|
    ensures s[j].px in m && m[s[j].px] == s[j].sz
  {
  }

  lemma FindKey(s: seq<Level>, m: map<nat, nat>, p: nat) returns (k: nat)
    requires Lists(s, m) && p in m
    ensures k < |s| && s[k].px == p
  {
    k :| 0 <= k < |s| && s[k].px == p;
  }

  lemma OtherKey(s: seq<Level>, descending: bool, i: nat, j: nat)
    requires Sorted(s, descending) && i < |s| && j < |s| && i != j
    ensures s[i].px != s[j].px
  {
    SortedAt(s, descending, i, j);
    SortedAt(s, descending, j, i);
  }

  lemma InsertSorted(s: seq<Level>, descending: bool, i: nat, level: Level)
    requires Sorted(s, descending) && i <= |s|
    requires forall j :: 0 <= j < i ==> Before(descending, s[j].px, level.px)
    requires forall j :: i <= j < |s| ==> Before(descending, level.px, s[j].px)
    ensures Sorted(s[..i] + [level] + s[i..], descending)
  {
  }

  lemma UpsertSorted(s: seq<Level>, m: map<nat, nat>, descending: bool, i: nat, px: nat, sz: nat)
    requires IsLadder(s, m, descending) && IsSlot(s, px, descending, i)
    ensures Sorted(Upsert(s, i, px, sz), descending)
  {
    SlotFindsKey(s, m, descending, i, px);
    if !Holds(s, px, i) {
      forall j | i <= j < |s|
        ensures Before(descending, px, s[j].px)
      {
        ListsEntry(s, m, j);
      }
      InsertSorted(s, descending, i, Level(px, sz));
    }
  }

  lemma UpsertLists(s: seq<Level>, m: map<nat, nat>, descending: bool, i: nat, px: nat, sz: nat)
    requires IsLadder(s, m, descending) && IsSlot(s, px, descending, i)
    ensures Lists(Upsert(s, i, px, sz), m[px := sz])
  {
    SlotFindsKey(s, m, descending, i, px);
    var r, n := Upsert(s, i, px, sz), m[px := sz];
    forall p | p in n
      ensures exists k :: 0 <= k < |r| && r[k].px == p
    {
      if p == px {
        assert r[i].px == p;
      } else {
        var k :| 0 <= k < |s| && s[k].px == p;
        assert r[if Holds(s, px, i) || k < i then k else k + 1].px == p;
      }
    }
  }

  /** Upsert on the ladder is map update. */
  lemma UpsertRefines(s: seq<Level>, m: map<nat, nat>, descending: bool, i: nat, px: nat, sz: nat)
    requires IsLadder(s, m, descending) && IsSlot(s, px, descending, i)
    ensures IsLadder(Upsert(s, i, px, sz), m[px := sz], descending)
  {
    UpsertSorted(s, m, descending, i, px, sz);
    UpsertLists(s, m, descending, i, px, sz);
  }

  lemma EraseSorted(s: seq<Level>, m: map<nat, nat>, descending: bool, i: nat, px: nat)
    requires IsLadder(s, m, descending) && i <= |s|
    ensures Sorted(Erase(s, i, px), descending)
  {
  }

  lemma EraseStays(s: seq<Level>, i: nat, px: nat, k: nat) returns (j: nat)
    requires i <= |s| && k < |s| && s[k].px != px
    ensures j < |Erase(s, i, px)| && Erase(s, i, px)[j] == s[k]
  {
    j := if Holds(s, px, i) && i < k then k - 1 else k;
  }

  lemma EraseComesFrom(s: seq<Level>, i: nat, px: nat, k: nat) returns (j: nat)
    requires i <= |s| && k < |Erase(s, i, px)|
    ensures j < |s| && Erase(s, i, px)[k] == s[j] && (Holds(s, px, i) ==> j != i)
  {
    j := if Holds(s, px, i) && i <= k then k + 1 else k;
  }

  lemma EraseKeepsOthers(s: seq<Level>, m: map<nat, nat>, i: nat, px: nat, p: nat)
    requires Lists(s, m) && i <= |s| && p in m && p != px
    ensures exists k :: 0 <= k < |Erase(s, i, px)| && Erase(s, i, px)[k].px == p
  {
    var k := FindKey(s, m, p);
    var j := EraseStays(s, i, px, k);
  }

  lemma EraseLeaves(s: seq<Level>, m: map<nat, nat>, descending: bool, i: nat, px: nat, k: nat)
    requires IsLadder(s, m, descending) && IsSlot(s, px, descending, i) && k < |Erase(s, i, px)|
    ensures var r := Erase(s, i, px)[k]; r.px in m && r.px != px && m[r.px] == r.sz
  {
    SlotFindsKey(s, m, descending, i, px);
    var j := EraseComesFrom(s, i, px, k);
    ListsEntry(s, m, j);
    if Holds(s, px, i) {
      OtherKey(s, descending, i, j);
    }
  }

  lemma EraseLists(s: seq<Level>, m: map<nat, nat>, descending: bool, i: nat, px: nat)
    requires IsLadder(s, m, descending) && IsSlot(s, px, descending, i)
    ensures Lists(Erase(s, i, px), m - {px})
  {
    var r := Erase(s, i, px);
    forall p | p in m - {px}
      ensures exists k :: 0 <= k < |r| && r[k].px == p
    {
      EraseKeepsOthers(s, m, i, px, p);
    }
    forall k | 0 <= k < |r|
      ensures r[k].px in m - {px} && (m - {px})[r[k].px] == r[k].sz
    {
      EraseLeaves(s, m, descending, i, px, k);
    }
  }

  /** Erase on the ladder is map removal, whether or not the key is there. */
  lemma EraseRefines(s: seq<Level>, m: map<nat, nat>, descending: bool, i: nat, px: nat)
    requires IsLadder(s, m, descending) && IsSlot(s, px, descending, i)
    ensures IsLadder(Erase(s, i, px), m - {px}, descending)
  {
    EraseSorted(s, m, descending, i, px);
    EraseLists(s, m, descending, i, px);
  }

  /** A map has one ladder per comparator. */
  lemma {:induction false} LadderUnique(s: seq<Level>, t: seq<Level>, m: map<nat, nat>, descending: bool)
    requires IsLadder(s, m, descending) && IsLadder(t, m, descending)
    ensures s == t
    decreases |s|
  {
    if s == [] {
      ListsAt(t, m, 0);
    } else {
      HeadsAgree(s, t, m, descending);
      RestIsLadder(s, m, descending);
      RestIsLadder(t, m, descending);
      LadderUnique(s[1..], t[1..], m - {s[0].px}, descending);
      assert s == [s[0]] + s[1..] && t == [t[0]] + t[1..];
    }
  }

  lemma HeadsAgree(s: seq<Level>, t: seq<Level>, m: map<nat, nat>, descending: bool)
    requires s != [] && IsLadder(s, m, descending) && IsLadder(t, m, descending)
    ensures t != [] && s[0] == t[0]
  {
    assert s[0].px in m;
    var j :| 0 <= j < |t| && t[j].px == s[0].px;
    assert t[0].px in m;
    var k :| 0 <= k < |s| && s[k].px == t[0].px;
    SortedAt(s, descending, 0, k);
    SortedAt(t, descending, 0, j);
  }

  lemma RestIsLadder(s: seq<Level>, m: map<nat, nat>, descending: bool)
    requires s != [] && IsLadder(s, m, descending)
    ensures IsLadder(s[1..], m - {s[0].px}, descending)
  {
    assert IsSlot(s, s[0].px, descending, 0);
    EraseRefines(s, m, descending, 0, s[0].px);
    assert Erase(s, 0, s[0].px) == s[1..];
  }

  lemma SmallerMap(m: map<nat, nat>, p: nat)
    requires p in m
    ensures |m - {p}| < |m|
  {
    assert (m - {p}).Keys == m.Keys - {p};
  }

  lemma PutBack(s: seq<Level>, m: map<nat, nat>, p: nat, descending: bool)
    requires p in m && IsLadder(s, m - {p}, descending)
    ensures IsLadder(Upsert(s, SlotOf(s, p, descending), p, m[p]), m, descending)
  {
    UpsertRefines(s, m - {p}, descending, SlotOf(s, p, descending), p, m[p]);
    assert (m - {p})[p := m[p]] == m;
  }

  /** The ladder of a map. */
  ghost function Ladder(m: map<nat, nat>, descending: bool): (s: seq<Level>)
    ensures IsLadder(s, m, descending)
    decreases |m|
  {
    if m == map[] then []
    else
      var p :| p in m;
      SmallerMap(m, p);
      var s := Ladder(m - {p}, descending);
      PutBack(s, m, p, descending);
      Upsert(s, SlotOf(s, p, descending), p, m[p])
  }

  /** The number of levels that come before px. */
  function SlotOf(s: seq<Level>, px: nat, descending: bool): (i: nat)
    ensures i <= |s|
    ensures Sorted(s, descending) ==> IsSlot(s, px, descending, i)
    decreases |s|
  {
    if s == [] || !Before(descending, s[0].px, px) then 0 else 1 + SlotOf(s[1..], px, descending)
  }

  lemma SlotAt(s: seq<Level>, px: nat, descending: bool, i: nat, k: nat)
    requires IsSlot(s, px, descending, i)
    ensures k < |s| ==> (k < i <==> Before(descending, s[k].px, px))
  {
  }

  /** There is one slot: a linear search and a binary search agree. */
  lemma SlotUnique(s: seq<Level>, px: nat, descending: bool, i: nat, j: nat)
    requires IsSlot(s, px, descending, i) && IsSlot(s, px, descending, j)
    ensures i == j
  {
    SlotAt(s, px, descending, i, i);
    SlotAt(s, px, descending, j, i);
    SlotAt(s, px, descending, i, j);
    SlotAt(s, px, descending, j, j);
  }

  /** A ladder has as many rows as the map has entries. */
  lemma {:induction false} LadderSize(s: seq<Level>, m: map<nat, nat>, descending: bool)
    requires IsLadder(s, m, descending)
    ensures |s| == |m|
    decreases |s|
  {
    if s == [] {
      assert m.Keys == {};
    } else {
      RestIsLadder(s, m, descending);
      LadderSize(s[1..], m - {s[0].px}, descending);
      assert (m - {s[0].px}).Keys == m.Keys - {s[0].px};
    }
  }
}
