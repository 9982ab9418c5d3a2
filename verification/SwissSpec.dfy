/**
 The invariants of a SwissTable (include/sdb/cwisstable.h) on plain sequences:
 the shape of the control bytes with their mirrored tail, where a probe
 sequence looks, and when a stored key can be found.
 */
module SwissSpec {
  import opened SwissGroup
  import opened SwissProbe

  datatype Slot<K, V> = Vacant | Entry(key: K, val: V)

  /** `x & (n - 1)` for a power of two. */
  function Mask(x: nat, n: nat): (r: nat)
    requires n > 0
    ensures r < n && (x < n ==> r == x) && (n <= x < 2 * n ==> r == x - n)
    decreases x
  {
    if x < n then x else Mask(x - n, n)
  }

  // --- shape of the control bytes ---

  /** Every 2^k - 1 is one of these. */
  predicate CapOk(cap: nat) {
    cap == 0 || cap == 1 || cap == 3 || cap >= 7
  }

  /** What byte `x` behind the sentinel repeats. */
  function Tail(c: seq<Ctrl>, cap: nat, x: nat): Ctrl
    requires |c| == cap + 8 && cap < x < cap + 8
  {
    if x - cap - 1 < cap then c[x - cap - 1] else Empty
  }

  /** `cap` control bytes, the sentinel, and a tail that repeats the first seven
      bytes; tables of fewer than seven slots fill the rest of the tail with
      empty bytes that stand for no slot. A table of no slots is the static
      group of empty bytes behind a sentinel. */
  ghost predicate Shaped(c: seq<Ctrl>, cap: nat) {
    && CapOk(cap) && |c| == cap + 8
    && c[cap] == Sentinel
    && (forall q :: 0 <= q < cap ==> c[q] != Sentinel)
    && (forall x :: cap < x < cap + 8 ==> c[x] == Tail(c, cap, x))
  }

  /** `CWISS_SetCtrl`: the byte and its mirror image, if it has one. */
  function SetCtrl(c: seq<Ctrl>, cap: nat, i: nat, h: Ctrl): (r: seq<Ctrl>)
    requires CapOk(cap) && |c| == cap + 8 && i < cap
    ensures |r| == |c|
  {
    var m := MirrorOf(cap, i);
    c[i := h][m := h]
  }

  /** `((i - 7) & cap) + (7 & cap)`, with a multiple of the table size added
      before subtracting: the mirror image, or `i` itself from the eighth byte on. */
  function MirrorOf(cap: nat, i: nat): (m: nat)
    requires CapOk(cap) && i < cap
    ensures m == if i < 7 then cap + 1 + i else i
  {
    Mask(i + (if cap >= 7 then cap + 1 else 8) - 7, cap + 1) + Mask(7, cap + 1)
  }

  lemma SetCtrlShaped(c: seq<Ctrl>, cap: nat, i: nat, h: Ctrl)
    requires Shaped(c, cap) && i < cap && h != Sentinel
    ensures Shaped(SetCtrl(c, cap, i, h), cap)
    ensures forall q :: 0 <= q <= cap && q != i ==> SetCtrl(c, cap, i, h)[q] == c[q]
    ensures SetCtrl(c, cap, i, h)[i] == h
  {
    hide MirrorOf;
    var r := SetCtrl(c, cap, i, h);
    forall x | cap < x < cap + 8
      ensures r[x] == Tail(r, cap, x)
    {
      assert c[x] == Tail(c, cap, x);
    }
  }

  /** A raw byte inside the mirrored range is the byte of its slot. */
  lemma Mirrors(c: seq<Ctrl>, cap: nat, x: nat)
    requires Shaped(c, cap) && x < cap + 8 && (x <= 2 * cap || cap >= 7)
    ensures Mask(x, cap + 1) <= cap && c[x] == c[Mask(x, cap + 1)]
  {
  }

  // --- where a key's probes look ---

  /** A table of at least eight positions has `Pow2(k) / 8` groups. */
  ghost predicate Big(cap: nat, k: nat) {
    k >= 3 && cap + 1 == 8 * Pow2(k - 3) && cap + 1 == Pow2(k)
  }

  /** Offset of probe `i` from start position `s`. */
  ghost function Off(s: nat, i: nat, cap: nat, k: nat): (o: nat)
    requires Big(cap, k) && s <= cap && i <= Pow2(k - 3)
    ensures o <= cap
  {
    Mask(s + 8 * Group(i, Pow2(k - 3)), cap + 1)
  }

  /** One step of `CWISS_ProbeSeq_next`. */
  lemma OffNext(s: nat, i: nat, cap: nat, k: nat)
    requires Big(cap, k) && s <= cap && i < Pow2(k - 3)
    ensures Mask(Off(s, i, cap, k) + 8 * (i + 1), cap + 1) == Off(s, i + 1, cap, k)
  {
    hide Mask;
  }

  /** Which group, counted from the start position, a position lies in
      (`CWISS_ProbeIndex`). */
  function GroupOf(q: nat, s: nat, cap: nat): nat
    requires q <= cap && s <= cap
  {
    Mask(q + (cap + 1) - s, cap + 1) / 8
  }

  /** Lane `l` of probe `i` is a position of that probe's group. */
  lemma LaneGroup(s: nat, i: nat, l: nat, cap: nat, k: nat)
    requires Big(cap, k) && s <= cap && i < Pow2(k - 3) && l < 8
    ensures var q := Mask(Off(s, i, cap, k) + l, cap + 1);
            q <= cap && GroupOf(q, s, cap) == Group(i, Pow2(k - 3))
  {
    hide Mask, Group;
    var n, g := cap + 1, Group(i, Pow2(k - 3));
    var q := Mask(Off(s, i, cap, k) + l, n);
    assert Mask(q + n - s, n) == 8 * g + l;
  }

  /** Every position of probe `i`'s group shows in one of its lanes. */
  lemma GroupLane(s: nat, i: nat, q: nat, cap: nat, k: nat) returns (l: nat)
    requires Big(cap, k) && s <= cap && i < Pow2(k - 3) && q <= cap
    requires GroupOf(q, s, cap) == Group(i, Pow2(k - 3))
    ensures l < 8 && Mask(Off(s, i, cap, k) + l, cap + 1) == q
  {
    hide Mask, Group;
    var n := cap + 1;
    l := Mask(q + n - s, n) - 8 * Group(i, Pow2(k - 3));
  }

  /** The probe that reaches group `g`. */
  ghost function Ord(g: nat, k: nat): (i: nat)
    requires g < Pow2(k)
    ensures i < Pow2(k) && Group(i, Pow2(k)) == g
  {
    var _ := GroupReached(g, k);
    var i: nat :| i < Pow2(k) && Group(i, Pow2(k)) == g;
    i
  }

  ghost function GroupReached(g: nat, k: nat): (b: bool)
    requires g < Pow2(k)
    ensures exists i: nat :: i < Pow2(k) && Group(i, Pow2(k)) == g
  {
    GroupReachable(g, k);
    true
  }

  lemma GroupReachable(g: nat, k: nat)
    requires g < Pow2(k)
    ensures exists i: nat :: i < Pow2(k) && Group(i, Pow2(k)) == g
  {
    var i := GroupSurjective(g, k);
  }

  lemma OrdGroup(i: nat, k: nat)
    requires i < Pow2(k)
    ensures Ord(Group(i, Pow2(k)), k) == i
  {
    hide Group;
    var o := Ord(Group(i, Pow2(k)), k);
    if o < i {
      GroupInjective(o, i, k);
    } else if i < o {
      GroupInjective(i, o, k);
    }
  }

  lemma GroupOfBound(q: nat, s: nat, cap: nat, k: nat)
    requires Big(cap, k) && q <= cap && s <= cap
    ensures GroupOf(q, s, cap) < Pow2(k - 3)
  {
  }

  // --- what a probe needs to pass by ---

  /** No empty byte in the window at `off`: a search goes on to the next group. */
  ghost predicate NoEmpty(c: seq<Ctrl>, off: nat)
    requires off + 8 <= |c|
  {
    forall l :: off <= l < off + 8 ==> c[l] != Empty
  }

  /** Neither empty nor deleted: an insertion goes on too. */
  ghost predicate Crowded(c: seq<Ctrl>, off: nat)
    requires off + 8 <= |c|
  {
    forall l :: off <= l < off + 8 ==> c[l] != Empty && c[l] != Deleted
  }

  /** A search from `s` gets as far as slot `q`. */
  ghost predicate Reach(c: seq<Ctrl>, cap: nat, k: nat, s: nat, q: nat)
    requires |c| == cap + 8 && s <= cap && q < cap
  {
    Big(cap, k) ==>
      GroupOf(q, s, cap) < Pow2(k - 3) &&
      forall j :: 0 <= j < Ord(GroupOf(q, s, cap), k - 3) ==> NoEmpty(c, Off(s, j, cap, k))
  }

  /** An insertion from `s` gets as far as slot `q`. */
  ghost predicate FirstRoom(c: seq<Ctrl>, cap: nat, k: nat, s: nat, q: nat)
    requires |c| == cap + 8 && s <= cap && q < cap
  {
    Big(cap, k) ==>
      GroupOf(q, s, cap) < Pow2(k - 3) &&
      forall j :: 0 <= j < Ord(GroupOf(q, s, cap), k - 3) ==> Crowded(c, Off(s, j, cap, k))
  }

  // --- steps that keep keys reachable ---

  /** Writing a byte changes a window only at the byte's own position. */
  lemma WindowAfter(c: seq<Ctrl>, cap: nat, i: nat, h: Ctrl, x: nat)
    requires Shaped(c, cap) && cap >= 7 && i < cap && h != Sentinel && x < cap + 8
    ensures SetCtrl(c, cap, i, h)[x] == if Mask(x, cap + 1) == i then h else c[x]
  {
    hide MirrorOf, Mask;
  }

  /** Putting something other than empty anywhere keeps windows without empties. */
  lemma NoEmptyAfter(c: seq<Ctrl>, cap: nat, i: nat, h: Ctrl, off: nat)
    requires Shaped(c, cap) && cap >= 7 && i < cap && h != Sentinel && h != Empty && off <= cap
    requires NoEmpty(c, off)
    ensures NoEmpty(SetCtrl(c, cap, i, h), off)
  {
    forall x | off <= x < off + 8
      ensures SetCtrl(c, cap, i, h)[x] != Empty
    {
      WindowAfter(c, cap, i, h, x);
    }
  }

  lemma CrowdedAfter(c: seq<Ctrl>, cap: nat, i: nat, h: Ctrl, off: nat)
    requires Shaped(c, cap) && cap >= 7 && i < cap && h.Full? && off <= cap
    requires Crowded(c, off)
    ensures Crowded(SetCtrl(c, cap, i, h), off)
  {
    forall x | off <= x < off + 8
      ensures SetCtrl(c, cap, i, h)[x].Full? || SetCtrl(c, cap, i, h)[x] == Sentinel
    {
      WindowAfter(c, cap, i, h, x);
      assert c[x] != Empty && c[x] != Deleted;
    }
  }

  /** A crowded window does not show a byte that has room, so it may be rewritten. */
  lemma CrowdedElsewhere(c: seq<Ctrl>, cap: nat, i: nat, h: Ctrl, off: nat)
    requires Shaped(c, cap) && cap >= 7 && i < cap && h != Sentinel && off <= cap
    requires c[i] == Empty || c[i] == Deleted
    requires Crowded(c, off)
    ensures Crowded(SetCtrl(c, cap, i, h), off)
  {
    forall x | off <= x < off + 8
      ensures SetCtrl(c, cap, i, h)[x] == c[x]
    {
      WindowAfter(c, cap, i, h, x);
      Mirrors(c, cap, x);
    }
    hide SetCtrl;
  }

  /** A key that is reachable stays so when any slot becomes full or deleted. */
  lemma ReachAfter(c: seq<Ctrl>, cap: nat, k: nat, i: nat, h: Ctrl, s: nat, q: nat)
    requires Shaped(c, cap) && i < cap && h != Sentinel && h != Empty && s <= cap && q < cap
    requires Reach(c, cap, k, s, q)
    ensures Reach(SetCtrl(c, cap, i, h), cap, k, s, q)
  {
    hide NoEmpty, SetCtrl, Off, Ord, GroupOf;
    if Big(cap, k) {
      forall j | 0 <= j < Ord(GroupOf(q, s, cap), k - 3)
        ensures NoEmpty(SetCtrl(c, cap, i, h), Off(s, j, cap, k))
      {
        NoEmptyAfter(c, cap, i, h, Off(s, j, cap, k));
      }
    }
  }

  /** The same for insertion paths, when a slot becomes full. */
  lemma FirstRoomAfter(c: seq<Ctrl>, cap: nat, k: nat, i: nat, h: Ctrl, s: nat, q: nat)
    requires Shaped(c, cap) && i < cap && h.Full? && s <= cap && q < cap
    requires FirstRoom(c, cap, k, s, q)
    ensures FirstRoom(SetCtrl(c, cap, i, h), cap, k, s, q)
  {
    hide Crowded, SetCtrl, Off, Ord, GroupOf;
    if Big(cap, k) {
      forall j | 0 <= j < Ord(GroupOf(q, s, cap), k - 3)
        ensures Crowded(SetCtrl(c, cap, i, h), Off(s, j, cap, k))
      {
        CrowdedAfter(c, cap, i, h, Off(s, j, cap, k));
      }
    }
  }

  /** Rewriting a byte that had room does not touch any insertion path. */
  lemma FirstRoomElsewhere(c: seq<Ctrl>, cap: nat, k: nat, i: nat, h: Ctrl, s: nat, q: nat)
    requires Shaped(c, cap) && i < cap && h != Sentinel && s <= cap && q < cap
    requires c[i] == Empty || c[i] == Deleted
    requires FirstRoom(c, cap, k, s, q)
    ensures FirstRoom(SetCtrl(c, cap, i, h), cap, k, s, q)
  {
    hide Crowded, SetCtrl, Off, Ord, GroupOf;
    if Big(cap, k) {
      forall j | 0 <= j < Ord(GroupOf(q, s, cap), k - 3)
        ensures Crowded(SetCtrl(c, cap, i, h), Off(s, j, cap, k))
      {
        CrowdedElsewhere(c, cap, i, h, Off(s, j, cap, k));
      }
    }
  }

  /** What insertion passes by, search passes by. */
  lemma FirstRoomReach(c: seq<Ctrl>, cap: nat, k: nat, s: nat, q: nat)
    requires |c| == cap + 8 && s <= cap && q < cap && FirstRoom(c, cap, k, s, q)
    ensures Reach(c, cap, k, s, q)
  {
    hide Off, Ord, GroupOf;
    if Big(cap, k) {
      forall j | 0 <= j < Ord(GroupOf(q, s, cap), k - 3)
        ensures NoEmpty(c, Off(s, j, cap, k))
      {
        assert Crowded(c, Off(s, j, cap, k));
      }
    }
  }

  /** Two positions of one group are equally far along. */
  lemma FirstRoomSameGroup(c: seq<Ctrl>, cap: nat, k: nat, s: nat, q: nat, r: nat)
    requires |c| == cap + 8 && s <= cap && q < cap && r < cap && FirstRoom(c, cap, k, s, q)
    requires GroupOf(q, s, cap) == GroupOf(r, s, cap)
    ensures FirstRoom(c, cap, k, s, r)
  {
  }

  // --- erasing ---

  /** Start of the eight bytes before `q`: `(q - 8) & cap`. */
  function Before(q: nat, cap: nat): (b: nat)
    requires q < cap
    ensures b <= cap
  {
    if cap >= 7 then Mask(q + (cap + 1) - 8, cap + 1) else q
  }

  /** There are an empty byte `a` places after `q` and one `8 - b` places before,
      less than nine apart. */
  ghost predicate NeverFull(c: seq<Ctrl>, cap: nat, q: nat, a: nat, b: nat)
    requires |c| == cap + 8 && q < cap && a < 8 && b < 8
  {
    c[q + a] == Empty && c[Before(q, cap) + b] == Empty && a <= b
  }

  /** No window of eight around `q` was ever without an empty byte. */
  lemma NeverFullWindow(c: seq<Ctrl>, cap: nat, q: nat, a: nat, b: nat, off: nat, l: nat)
    requires Shaped(c, cap) && cap >= 7 && q < cap && a < 8 && b < 8 && NeverFull(c, cap, q, a, b)
    requires off <= cap && l < 8 && Mask(off + l, cap + 1) == q
    ensures !NoEmpty(c, off)
  {
    hide Mask;
    var n := cap + 1;
    Mirrors(c, cap, q + a);
    Mirrors(c, cap, Before(q, cap) + b);
    if l + a < 8 {
      Mirrors(c, cap, off + l + a);
      assert Mask(off + l + a, n) == Mask(q + a, n);
      assert c[off + l + a] == Empty;
    } else {
      var x := off + l + b - 8;
      Mirrors(c, cap, x);
      assert Mask(x, n) == Mask(Before(q, cap) + b, n);
      assert c[x] == Empty;
    }
  }

  /** Marking such a slot empty instead of deleted hides no key. */
  lemma ReachAfterErase(c: seq<Ctrl>, cap: nat, k: nat, q: nat, a: nat, b: nat, s: nat, r: nat)
    requires Shaped(c, cap) && q < cap && a < 8 && b < 8 && NeverFull(c, cap, q, a, b)
    requires s <= cap && r < cap && Reach(c, cap, k, s, r)
    ensures Reach(SetCtrl(c, cap, q, Empty), cap, k, s, r)
  {
    hide SetCtrl, Off, Ord, GroupOf, NeverFull, Mask;
    if Big(cap, k) {
      forall j | 0 <= j < Ord(GroupOf(r, s, cap), k - 3)
        ensures NoEmpty(SetCtrl(c, cap, q, Empty), Off(s, j, cap, k))
      {
        var off := Off(s, j, cap, k);
        forall x | off <= x < off + 8
          ensures SetCtrl(c, cap, q, Empty)[x] != Empty
        {
          assert NoEmpty(c, off);
          WindowAfter(c, cap, q, Empty, x);
          if Mask(x, cap + 1) == q {
            NeverFullWindow(c, cap, q, a, b, off, x - off);
          }
        }
      }
    }
  }
}
