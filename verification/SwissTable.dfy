/**
 include/sdb/cwisstable.h: capacities and the two searches of a SwissTable, for a
 key and for a slot with room.

 `h1` and `h2` are arbitrary functions of the key; `h1` also depends on a salt
 (the address of the control bytes), which changes with every allocation. Which
 end of a group an insertion takes first is left open.
 */
module SwissTable {
  import opened Options
  import opened SwissGroup
  import opened SwissProbe
  import opened SwissSpec
  import opened SwissIndex

  /** `cap` is 2^k - 1; from k == 3 on, the table consists of whole groups. */
  ghost predicate Sized(cap: nat, k: nat) {
    cap + 1 == Pow2(k) && (k >= 3 ==> cap + 1 == 8 * Pow2(k - 3)) && (k < 3 ==> cap < 7)
  }

  lemma SizedDouble(cap: nat, k: nat)
    requires Sized(cap, k)
    ensures Sized(2 * cap + 1, k + 1)
  {
  }

  /** How many bits a number has. */
  function Bits(n: nat): nat {
    if n == 0 then 0 else 1 + Bits(n / 2)
  }

  /** The least capacity of the required form that is not below `n`. */
  ghost predicate Normalized(n: nat, cap: nat, k: nat) {
    Sized(cap, k) && CapOk(cap) && n <= cap && (n > 0 ==> cap < 2 * n) && (n == 0 ==> cap == 0)
  }

  /** `CWISS_NormalizeCapacity`: as many ones as the number has bits. */
  lemma {:induction false} BitsSized(n: nat)
    ensures Normalized(n, Pow2(Bits(n)) - 1, Bits(n))
  {
    hide Pow2, Sized, CapOk, Bits;
    BitsNext(n);
    if n == 0 {
      SizedZero();
    } else {
      BitsSized(n / 2);
      DoubleCapacity(n, Bits(n / 2));
    }
  }

  lemma BitsNext(n: nat)
    ensures Bits(n) == if n == 0 then 0 else Bits(n / 2) + 1
  {
  }

  lemma DoubleCapacity(n: nat, k: nat)
    requires n > 0 && Normalized(n / 2, Pow2(k) - 1, k)
    ensures Normalized(n, Pow2(k + 1) - 1, k + 1)
  {
    hide Pow2, Sized, CapOk;
    SizedDouble(Pow2(k) - 1, k);
    PowNext(k);
    DoubleBounds(n, Pow2(k) - 1);
  }

  lemma DoubleBounds(n: nat, cap: nat)
    requires n > 0 && n / 2 <= cap && CapOk(cap) && (n / 2 > 0 ==> cap < 2 * (n / 2)) && (n / 2 == 0 ==> cap == 0)
    ensures n <= 2 * cap + 1 < 2 * n && CapOk(2 * cap + 1)
  {
  }

  lemma SizedZero()
    ensures Pow2(0) == 1 && Sized(0, 0) && CapOk(0)
  {
  }

  lemma PowNext(k: nat)
    ensures Pow2(k + 1) == 2 * Pow2(k)
  {
  }

  /** `CWISS_CapacityToGrowth`. */
  function Growth(cap: nat): (g: nat)
    ensures g <= cap
    ensures cap >= 7 ==> g < cap
    ensures 7 * cap <= 8 * g < 7 * cap + 8 || (cap == 7 && g == 6)
  {
    if cap == 7 then 6 else cap - cap / 8
  }

  ghost predicate HasRoom(c: seq<Ctrl>, cap: nat)
    requires |c| == cap + 8
  {
    exists q :: 0 <= q < cap && Room(c[q])
  }

  // --- the insertion search ---

  /** All probes so far met crowded windows. */
  ghost predicate Passed(c: seq<Ctrl>, cap: nat, k: nat, s: nat, i: nat)
    requires |c| == cap + 8 && s <= cap
  {
    if Big(cap, k) then i <= Pow2(k - 3) && forall j :: 0 <= j < i ==> Crowded(c, Off(s, j, cap, k)) else i == 0
  }

  /** A window with room: the slot of any lane that has room is where to insert. */
  lemma RoomFound(c: seq<Ctrl>, cap: nat, k: nat, s: nat, i: nat, l: nat)
    requires Shaped(c, cap) && s <= cap && Big(cap, k) && i < Pow2(k - 3) && Passed(c, cap, k, s, i)
    requires l < 8 && Room(c[Off(s, i, cap, k) + l])
    ensures var q := Mask(Off(s, i, cap, k) + l, cap + 1);
            q < cap && Room(c[q]) && FirstRoom(c, cap, k, s, q)
  {
    hide Mask, Off, Ord, Crowded, Group, GroupOf;
    var x := Off(s, i, cap, k) + l;
    Mirrors(c, cap, x);
    LaneGroup(s, i, l, cap, k);
    OrdGroup(i, k - 3);
  }

  /** If every group were crowded there would be no room. */
  lemma RoundCrowded(c: seq<Ctrl>, cap: nat, k: nat, s: nat)
    requires Shaped(c, cap) && s <= cap && Big(cap, k) && Passed(c, cap, k, s, Pow2(k - 3))
    ensures !HasRoom(c, cap)
  {
    hide Mask, Off, Ord, Group, GroupOf;
    forall q | 0 <= q < cap
      ensures !Room(c[q])
    {
      GroupOfBound(q, s, cap, k);
      var i := Ord(GroupOf(q, s, cap), k - 3);
      var l := GroupLane(s, i, q, cap, k);
      assert Crowded(c, Off(s, i, cap, k));
      Mirrors(c, cap, Off(s, i, cap, k) + l);
    }
  }

  /** In a small table with room the lowest lane with room is a real slot. */
  lemma SmallFound(c: seq<Ctrl>, cap: nat, s: nat, l: nat)
    requires Shaped(c, cap) && cap < 7 && s <= cap && l < 8 && HasRoom(c, cap)
    requires Room(c[s + l]) && forall x :: s <= x < s + l ==> !Room(c[x])
    ensures var q := Mask(s + l, cap + 1); q < cap && Room(c[q])
  {
    var q :| 0 <= q < cap && Room(c[q]);
    var x := if s <= q then q else cap + 1 + q;
    assert c[x] == c[q] by {
      if q < s {
        assert c[x] == Tail(c, cap, x);
      }
    }
    assert s + l <= x;
    Mirrors(c, cap, s + l);
  }

  /** `CWISS_FindFirstNonFull`. */
  method FindFirstNonFull(ctrl: array<Ctrl>, s: nat, cap: nat, ghost k: nat) returns (q: nat)
    requires Shaped(ctrl[..], cap) && Sized(cap, k) && s <= cap
    requires cap >= 7 ==> HasRoom(ctrl[..], cap)
    ensures q <= cap
    ensures HasRoom(ctrl[..], cap) ==> q < cap && Room(ctrl[q]) && FirstRoom(ctrl[..], cap, k, s, q)
  {
    hide Load, MatchEmptyOrDeleted, Lowest, Highest, Mask, Off, Crowded, FirstRoom, HasRoom, IsMask, Pow2, Shaped;
    ghost var c := ctrl[..];
    ShapedLength(c, cap);
    var off, index := s, 0;
    ghost var i := 0;
    assert Big(cap, k) ==> Off(s, 0, cap, k) == s by {
      FirstOff(s, cap, k);
    }
    while true
      invariant Passed(c, cap, k, s, i) && off <= cap
      invariant if Big(cap, k) then i < Pow2(k - 3) && off == Off(s, i, cap, k) && index == 8 * i else off == s
      decreases if Big(cap, k) then Pow2(k - 3) - i else 0
    {
      RoomMask(c, off);
      assert ctrl[off..off + 8] == c[off..off + 8];
      var mask := MatchEmptyOrDeleted(Load(ctrl[off..off + 8]));
      if mask != 0 {
        var backwards: bool := *;
        var l := if cap >= 7 && backwards then Highest(mask) else Lowest(mask);
        q := Mask(off + l, cap + 1);
        if Big(cap, k) {
          RoomFound(c, cap, k, s, i, l);
        } else {
          if HasRoom(c, cap) {
            SmallFound(c, cap, s, l);
            SmallFirst(c, cap, k, s, q);
          }
        }
        return;
      }
      if !Big(cap, k) {
        SmallNeverCrowded(c, cap, s);
        assert false;
      }
      OffNext(s, i, cap, k);
      index := index + 8;
      off := Mask(off + index, cap + 1);
      i := i + 1;
      if i == Pow2(k - 3) {
        RoundCrowded(c, cap, k, s);
      }
    }
  }

  lemma FirstOff(s: nat, cap: nat, k: nat)
    requires s <= cap
    ensures Big(cap, k) ==> Off(s, 0, cap, k) == s
  {
  }

  lemma SmallFirst(c: seq<Ctrl>, cap: nat, k: nat, s: nat, q: nat)
    requires |c| == cap + 8 && s <= cap && q < cap && !Big(cap, k)
    ensures FirstRoom(c, cap, k, s, q)
  {
  }

  /** The dummy bytes of a small table always leave room in the window. */
  lemma SmallNeverCrowded(c: seq<Ctrl>, cap: nat, s: nat)
    requires Shaped(c, cap) && cap < 7 && s <= cap
    ensures !Crowded(c, s)
  {
    assert c[cap + 7 - (cap - s)] == Tail(c, cap, cap + 7 - (cap - s));
  }

  // --- the lookup ---

  /** A full byte in a window is the byte of a slot. */
  lemma FullLane(c: seq<Ctrl>, cap: nat, x: nat)
    requires Shaped(c, cap) && x < cap + 8 && c[x].Full?
    ensures Mask(x, cap + 1) < cap && c[Mask(x, cap + 1)] == c[x]
  {
    hide Mask;
    if x > cap {
      assert c[x] == Tail(c, cap, x);
    }
    Mirrors(c, cap, x);
  }

  lemma LaneSlot<K(!new), V(!new)>(c: seq<Ctrl>, sl: seq<Slot<K, V>>, cap: nat, pos: map<K, nat>, h2: K -> bv7, x: nat)
    requires Shaped(c, cap) && Indexed(c, sl, cap, pos, h2) && x < cap + 8 && c[x].Full?
    ensures var q := Mask(x, cap + 1); q < |sl| && sl[q].Entry? && sl[q].key in pos && pos[sl[q].key] == q
  {
    hide Mask;
    FullLane(c, cap, x);
  }

  lemma ShapedLength(c: seq<Ctrl>, cap: nat)
    requires Shaped(c, cap)
    ensures |c| == cap + 8
  {
  }

  lemma SlotsLength<K(!new), V(!new)>(c: seq<Ctrl>, sl: seq<Slot<K, V>>, cap: nat, pos: map<K, nat>, h2: K -> bv7)
    requires |c| == cap + 8 && Indexed(c, sl, cap, pos, h2)
    ensures |sl| == cap
  {
  }

  /** The slot behind raw position `x` holds another key. */
  ghost predicate Other<K, V>(sl: seq<Slot<K, V>>, cap: nat, x: nat, key: K) {
    var q := Mask(x, cap + 1);
    q < |sl| && sl[q].Entry? && sl[q].key != key
  }

  /** The inner loop of a search: the lanes of one group that may hold the key. */
  method ScanGroup<K(==, !new), V(!new)>(ctrl: array<Ctrl>, slots: array<Slot<K, V>>, off: nat, key: K, h: bv7,
                                         cap: nat,
                                         ghost pos: map<K, nat>, ghost h2: K -> bv7) returns (r: Option<nat>)
    requires Shaped(ctrl[..], cap) && off <= cap && Indexed(ctrl[..], slots[..], cap, pos, h2)
    ensures r.Some? ==> key in pos && r.value == pos[key]
    ensures r.None? ==> forall x :: off <= x < off + 8 && ctrl[x] == Full(h) ==> Other(slots[..], cap, x, key)
  {
    hide Load, Match, Lane, Lowest, Mask, IsMask, Lanes, Drop, Other, Indexed, Shaped;
    ghost var c := ctrl[..];
    ShapedLength(c, cap);
    SlotsLength(c, slots[..], cap, pos, h2);
    assert ctrl[off..off + 8] == c[off..off + 8];
    MatchSet(c, off, h);
    var mask := Match(Load(ctrl[off..off + 8]), h);
    ghost var all := Lanes(mask);
    while mask != 0
      invariant IsMask(mask) && Lanes(mask) <= all
      invariant forall j :: j in all && j !in Lanes(mask) ==> Other(slots[..], cap, off + j, key)
      decreases Lanes(mask)
    {
      LanesNext(mask);
      var l := Lowest(mask);
      LaneSlot(c, slots[..], cap, pos, h2, off + l);
      var idx := Mask(off + l, cap + 1);
      if slots[idx].key == key {
        return Some(idx);
      }
      OtherAt(slots[..], cap, off + l, key);
      mask := Drop(mask);
    }
    LanesNone(mask);
    r := None;
    forall x | off <= x < off + 8 && ctrl[x] == Full(h)
      ensures Other(slots[..], cap, x, key)
    {
      assert x - off in all;
      assert off + (x - off) == x;
    }
  }

  lemma OtherAt<K, V>(sl: seq<Slot<K, V>>, cap: nat, x: nat, key: K)
    requires Mask(x, cap + 1) < |sl| && sl[Mask(x, cap + 1)].Entry? && sl[Mask(x, cap + 1)].key != key
    ensures Other(sl, cap, x, key)
  {
  }

  /** Nothing under the key in the groups probed so far. */
  ghost predicate Missed<K>(cap: nat, k: nat, s: nat, i: nat, pos: map<K, nat>, key: K)
    requires s <= cap && (key in pos ==> pos[key] < cap)
  {
    key in pos && Big(cap, k) ==>
      GroupOf(pos[key], s, cap) < Pow2(k - 3) && i <= Ord(GroupOf(pos[key], s, cap), k - 3)
  }

  /** A scanned group that does not hold the key: the key is further along. */
  lemma NotHere<K(!new), V(!new)>(c: seq<Ctrl>, sl: seq<Slot<K, V>>, cap: nat, k: nat, s: nat, i: nat,
                                  pos: map<K, nat>, h2: K -> bv7, key: K)
    requires Shaped(c, cap) && Indexed(c, sl, cap, pos, h2) && key in pos && s <= cap && Big(cap, k) && i < Pow2(k - 3)
    requires var off := Off(s, i, cap, k);
             forall x :: off <= x < off + 8 && c[x] == Full(h2(key)) ==> Other(sl, cap, x, key)
    ensures GroupOf(pos[key], s, cap) < Pow2(k - 3) && Ord(GroupOf(pos[key], s, cap), k - 3) != i
  {
    hide Mask, Off, Ord, Group, GroupOf;
    var q := pos[key];
    GroupOfBound(q, s, cap, k);
    if Ord(GroupOf(q, s, cap), k - 3) == i {
      var l := GroupLane(s, i, q, cap, k);
      var x := Off(s, i, cap, k) + l;
      Mirrors(c, cap, x);
    }
  }

  /** In a small table one group shows every slot. */
  lemma NotInSmall<K(!new), V(!new)>(c: seq<Ctrl>, sl: seq<Slot<K, V>>, cap: nat, s: nat, pos: map<K, nat>,
                                     h2: K -> bv7, key: K)
    requires Shaped(c, cap) && Indexed(c, sl, cap, pos, h2) && cap < 7 && s <= cap
    requires forall x :: s <= x < s + 8 && c[x] == Full(h2(key)) ==> Other(sl, cap, x, key)
    ensures key !in pos
  {
    if key in pos {
      var x := SmallLane(c, cap, s, pos[key]);
    }
  }

  lemma SmallLane(c: seq<Ctrl>, cap: nat, s: nat, q: nat) returns (x: nat)
    requires Shaped(c, cap) && cap < 7 && s <= cap && q < cap
    ensures s <= x < s + 8 && x < cap + 8 && Mask(x, cap + 1) == q && c[x] == c[q]
  {
    x := if s <= q then q else cap + 1 + q;
    if q < s {
      assert c[x] == Tail(c, cap, x);
    }
  }

  ghost predicate HasEmpty(c: seq<Ctrl>, cap: nat)
    requires |c| == cap + 8
  {
    exists q :: 0 <= q < cap && c[q] == Empty
  }

  /** A full round without an empty byte means there is none. */
  lemma RoundNoEmpty(c: seq<Ctrl>, cap: nat, k: nat, s: nat)
    requires Shaped(c, cap) && s <= cap && Big(cap, k)
    requires forall j :: 0 <= j < Pow2(k - 3) ==> NoEmpty(c, Off(s, j, cap, k))
    ensures !HasEmpty(c, cap)
  {
    hide Mask, Off, Ord, Group, GroupOf;
    forall q | 0 <= q < cap
      ensures c[q] != Empty
    {
      GroupOfBound(q, s, cap, k);
      var i := Ord(GroupOf(q, s, cap), k - 3);
      var l := GroupLane(s, i, q, cap, k);
      assert NoEmpty(c, Off(s, i, cap, k));
      Mirrors(c, cap, Off(s, i, cap, k) + l);
    }
  }

  lemma SmallHasEmpty(c: seq<Ctrl>, cap: nat, s: nat)
    requires Shaped(c, cap) && cap < 7 && s <= cap
    ensures !NoEmpty(c, s)
  {
    assert c[s + 7] == Tail(c, cap, s + 7);
  }

  /** `CWISS_RawTable_find_hinted`: the slot of the key, if it is stored. */
  method FindIndex<K(==, !new), V(!new)>(ctrl: array<Ctrl>, slots: array<Slot<K, V>>, key: K, s: nat, h: bv7, cap: nat,
                                         ghost k: nat, ghost pos: map<K, nat>, ghost h2: K -> bv7)
    returns (r: Option<nat>)
    requires Shaped(ctrl[..], cap) && Sized(cap, k) && s <= cap && Indexed(ctrl[..], slots[..], cap, pos, h2)
             && h == h2(key)
    requires key in pos ==> Reach(ctrl[..], cap, k, s, pos[key])
    requires cap >= 7 ==> HasEmpty(ctrl[..], cap)
    ensures r == if key in pos then Some(pos[key]) else None
  {
    hide Load, MatchEmpty, Mask, Off, NoEmpty, IsMask, Pow2, Indexed, Other, GroupOf, Ord, HasEmpty, Lowest, Highest,
         LeadingLanes;
    ghost var c := ctrl[..];
    IndexBound(c, slots[..], cap, pos, h2);
    var off, index := s, 0;
    ghost var i := 0;
    FirstOff(s, cap, k);
    while true
      invariant off <= cap && Missed(cap, k, s, i, pos, key)
      invariant if Big(cap, k) then i < Pow2(k - 3) && off == Off(s, i, cap, k) && index == 8 * i else off == s
      invariant Big(cap, k) ==> forall j :: 0 <= j < i ==> NoEmpty(c, Off(s, j, cap, k))
      decreases if Big(cap, k) then Pow2(k - 3) - i else 0
    {
      r := ScanGroup(ctrl, slots, off, key, h, cap, pos, h2);
      if r.Some? {
        return;
      }
      if Big(cap, k) {
        if key in pos {
          NotHere(c, slots[..], cap, k, s, i, pos, h2, key);
        }
      } else {
        NotInSmall(c, slots[..], cap, s, pos, h2, key);
      }
      EmptyMask(c, off);
      assert ctrl[off..off + 8] == c[off..off + 8];
      if MatchEmpty(Load(ctrl[off..off + 8])) != 0 {
        return;
      }
      if !Big(cap, k) {
        SmallHasEmpty(c, cap, s);
        assert false;
      }
      OffNext(s, i, cap, k);
      index := index + 8;
      off := Mask(off + index, cap + 1);
      i := i + 1;
      if i == Pow2(k - 3) {
        RoundNoEmpty(c, cap, k, s);
      }
    }
  }

  lemma IndexBound<K(!new), V(!new)>(c: seq<Ctrl>, sl: seq<Slot<K, V>>, cap: nat, pos: map<K, nat>, h2: K -> bv7)
    requires |c| == cap + 8 && Indexed(c, sl, cap, pos, h2)
    ensures forall x :: x in pos ==> pos[x] < cap
  {
  }
}
