/**
 The in-place rehash of include/sdb/cwisstable.h on plain sequences. While it
 runs, a deleted byte marks an entry that has not been placed yet and a full
 byte one that has.
 */
module SwissRehash {
  import opened SwissGroup
  import opened SwissSpec
  import opened SwissIndex

  /** Key `x` is either placed where an insertion would put it, or still waits at
      position `i` or later. */
  ghost predicate PlacedOrWaiting<K(!new), V(!new)>(c: seq<Ctrl>, sl: seq<Slot<K, V>>, cap: nat, k: nat,
                                                    pos: map<K, nat>,
                                                    h1: (K, nat) -> nat, h2: K -> bv7, salt: nat, i: nat, x: K)
    requires |c| == cap + 8 && |sl| == cap && x in pos
  {
    && pos[x] < cap && sl[pos[x]].Entry? && sl[pos[x]].key == x
    && (|| (c[pos[x]] == Full(h2(x)) && FirstRoom(c, cap, k, StartOf(h1, salt, cap, x), pos[x]))
        || (c[pos[x]] == Deleted && i <= pos[x]))
  }

  ghost predicate Rehashing<K(!new), V(!new)>(c: seq<Ctrl>, sl: seq<Slot<K, V>>, cap: nat, k: nat, pos: map<K, nat>,
                                              h1: (K, nat) -> nat, h2: K -> bv7, salt: nat, i: nat) {
    && Shaped(c, cap) && |sl| == cap
    && (forall x :: x in pos ==> PlacedOrWaiting(c, sl, cap, k, pos, h1, h2, salt, i, x))
    && (forall q :: 0 <= q < cap && c[q] != Empty ==> sl[q].Entry? && sl[q].key in pos && pos[sl[q].key] == q)
  }

  /** After the conversion every entry waits. */
  lemma RehashStart<K(!new), V(!new)>(c: seq<Ctrl>, d: seq<Ctrl>, sl: seq<Slot<K, V>>, cap: nat, k: nat,
                                      pos: map<K, nat>,
                                      h1: (K, nat) -> nat, h2: K -> bv7, salt: nat)
    requires Shaped(c, cap) && Indexed(c, sl, cap, pos, h2) && Shaped(d, cap)
    requires forall q :: 0 <= q < cap ==> d[q] == Converted(c[q])
    ensures Rehashing(d, sl, cap, k, pos, h1, h2, salt, 0)
  {
    hide Shaped, FirstRoom, StartOf;
    ShapedSize(d, cap);
    ShapedSize(c, cap);
    forall x | x in pos
      ensures PlacedOrWaiting(d, sl, cap, k, pos, h1, h2, salt, 0, x)
    {
      assert d[pos[x]] == Converted(c[pos[x]]);
    }
  }

  lemma ShapedSize(c: seq<Ctrl>, cap: nat)
    requires Shaped(c, cap)
    ensures |c| == cap + 8 && CapOk(cap)
  {
  }

  /** A slot that is not waiting can be stepped over. */
  lemma RehashSkip<K(!new), V(!new)>(c: seq<Ctrl>, sl: seq<Slot<K, V>>, cap: nat, k: nat, pos: map<K, nat>,
                                     h1: (K, nat) -> nat, h2: K -> bv7, salt: nat, i: nat)
    requires Rehashing(c, sl, cap, k, pos, h1, h2, salt, i) && i < cap && c[i] != Deleted
    ensures Rehashing(c, sl, cap, k, pos, h1, h2, salt, i + 1)
  {
    hide Shaped, FirstRoom, StartOf;
    ShapedSize(c, cap);
    forall x | x in pos
      ensures PlacedOrWaiting(c, sl, cap, k, pos, h1, h2, salt, i + 1, x)
    {
      assert PlacedOrWaiting(c, sl, cap, k, pos, h1, h2, salt, i, x);
    }
  }

  /** Marking a slot full keeps what every other key has. */
  lemma OthersKeep<K(!new), V(!new)>(c: seq<Ctrl>, sl: seq<Slot<K, V>>, cap: nat, k: nat, pos: map<K, nat>,
                                     h1: (K, nat) -> nat, h2: K -> bv7, salt: nat, i: nat, q: nat, h: Ctrl, x: K)
    requires Shaped(c, cap) && |sl| == cap && q < cap && h.Full? && x in pos
    requires PlacedOrWaiting(c, sl, cap, k, pos, h1, h2, salt, i, x) && pos[x] != q
    ensures PlacedOrWaiting(SetCtrl(c, cap, q, h), sl, cap, k, pos, h1, h2, salt, i, x)
  {
    hide SetCtrl, FirstRoom, StartOf;
    SetCtrlShaped(c, cap, q, h);
    if c[pos[x]] == Full(h2(x)) {
      FirstRoomAfter(c, cap, k, q, h, StartOf(h1, salt, cap, x), pos[x]);
    }
  }

  /** The entry at `i` stays: its target lies in its own group. */
  lemma RehashStay<K(!new), V(!new)>(c: seq<Ctrl>, sl: seq<Slot<K, V>>, cap: nat, k: nat, pos: map<K, nat>,
                                     h1: (K, nat) -> nat, h2: K -> bv7, salt: nat, i: nat, q: nat)
    requires Rehashing(c, sl, cap, k, pos, h1, h2, salt, i) && i < cap && c[i] == Deleted && sl[i].Entry?
    requires var s := StartOf(h1, salt, cap, sl[i].key);
             q < cap && FirstRoom(c, cap, k, s, q) && GroupOf(q, s, cap) == GroupOf(i, s, cap)
    ensures Rehashing(SetCtrl(c, cap, i, Full(h2(sl[i].key))), sl, cap, k, pos, h1, h2, salt, i + 1)
  {
    hide SetCtrl, FirstRoom, StartOf, GroupOf, PlacedOrWaiting;
    var key := sl[i].key;
    var s, h := StartOf(h1, salt, cap, key), Full(h2(key));
    var c' := SetCtrl(c, cap, i, h);
    SetCtrlShaped(c, cap, i, h);
    FirstRoomSameGroup(c, cap, k, s, q, i);
    FirstRoomAfter(c, cap, k, i, h, s, i);
    forall x | x in pos
      ensures PlacedOrWaiting(c', sl, cap, k, pos, h1, h2, salt, i + 1, x)
    {
      assert PlacedOrWaiting(c, sl, cap, k, pos, h1, h2, salt, i, x);
      if x == key {
        IsPlaced(c', sl, cap, k, pos, h1, h2, salt, i + 1, x);
      } else {
        Slots(c, sl, cap, k, pos, h1, h2, salt, i, x);
        assert pos[x] != i;
        OthersKeep(c, sl, cap, k, pos, h1, h2, salt, i, i, h, x);
        StepPast(c', sl, cap, k, pos, h1, h2, salt, i, x);
      }
    }
  }

  lemma IsPlaced<K(!new), V(!new)>(c: seq<Ctrl>, sl: seq<Slot<K, V>>, cap: nat, k: nat, pos: map<K, nat>,
                                   h1: (K, nat) -> nat, h2: K -> bv7, salt: nat, i: nat, x: K)
    requires |c| == cap + 8 && |sl| == cap && x in pos && pos[x] < cap && sl[pos[x]].Entry? && sl[pos[x]].key == x
    requires c[pos[x]] == Full(h2(x)) && FirstRoom(c, cap, k, StartOf(h1, salt, cap, x), pos[x])
    ensures PlacedOrWaiting(c, sl, cap, k, pos, h1, h2, salt, i, x)
  {
  }

  lemma Slots<K(!new), V(!new)>(c: seq<Ctrl>, sl: seq<Slot<K, V>>, cap: nat, k: nat, pos: map<K, nat>,
                                h1: (K, nat) -> nat, h2: K -> bv7, salt: nat, i: nat, x: K)
    requires |c| == cap + 8 && |sl| == cap && x in pos && PlacedOrWaiting(c, sl, cap, k, pos, h1, h2, salt, i, x)
    ensures pos[x] < cap && sl[pos[x]].Entry? && sl[pos[x]].key == x && c[pos[x]] != Empty
  {
  }

  lemma StepPast<K(!new), V(!new)>(c: seq<Ctrl>, sl: seq<Slot<K, V>>, cap: nat, k: nat, pos: map<K, nat>,
                                   h1: (K, nat) -> nat, h2: K -> bv7, salt: nat, i: nat, x: K)
    requires |c| == cap + 8 && |sl| == cap && x in pos && PlacedOrWaiting(c, sl, cap, k, pos, h1, h2, salt, i, x)
             && pos[x] != i
    ensures PlacedOrWaiting(c, sl, cap, k, pos, h1, h2, salt, i + 1, x)
  {
  }

  /** The entry at `i` moves to an empty slot. */
  lemma RehashMove<K(!new), V(!new)>(c: seq<Ctrl>, sl: seq<Slot<K, V>>, cap: nat, k: nat, pos: map<K, nat>,
                                     h1: (K, nat) -> nat, h2: K -> bv7, salt: nat, i: nat, q: nat)
    requires Rehashing(c, sl, cap, k, pos, h1, h2, salt, i) && i < cap && c[i] == Deleted && sl[i].Entry?
    requires q < cap && c[q] == Empty && FirstRoom(c, cap, k, StartOf(h1, salt, cap, sl[i].key), q)
    ensures var key := sl[i].key;
            var c1 := SetCtrl(c, cap, q, Full(h2(key)));
            && |c1| == cap + 8
            && Rehashing(SetCtrl(c1, cap, i, Empty), sl[q := sl[i]], cap, k, pos[key := q], h1, h2, salt, i + 1)
  {
    hide SetCtrl, FirstRoom, StartOf, PlacedOrWaiting;
    var key := sl[i].key;
    var h := Full(h2(key));
    var c1 := SetCtrl(c, cap, q, h);
    SetCtrlShaped(c, cap, q, h);
    SetCtrlShaped(c1, cap, i, Empty);
    var c2, sl', pos' := SetCtrl(c1, cap, i, Empty), sl[q := sl[i]], pos[key := q];
    forall x | x in pos'
      ensures PlacedOrWaiting(c2, sl', cap, k, pos', h1, h2, salt, i + 1, x)
    {
      assert PlacedOrWaiting(c, sl, cap, k, pos, h1, h2, salt, i, x);
      Slots(c, sl, cap, k, pos, h1, h2, salt, i, x);
      if x == key {
        FirstRoomAfter(c, cap, k, q, h, StartOf(h1, salt, cap, key), q);
        FirstRoomElsewhere(c1, cap, k, i, Empty, StartOf(h1, salt, cap, key), q);
        IsPlaced(c2, sl', cap, k, pos', h1, h2, salt, i + 1, x);
      } else {
        OthersKeep(c, sl, cap, k, pos, h1, h2, salt, i, q, h, x);
        OthersElsewhere(c1, sl, cap, k, pos, h1, h2, salt, i, Empty, x);
        StepPast(c2, sl, cap, k, pos, h1, h2, salt, i, x);
        SameSlot(c2, sl, sl', cap, k, pos, pos', h1, h2, salt, i + 1, x);
      }
    }
  }

  /** Rewriting the waiting byte at `i` keeps what every other key has. */
  lemma OthersElsewhere<K(!new), V(!new)>(c: seq<Ctrl>, sl: seq<Slot<K, V>>, cap: nat, k: nat, pos: map<K, nat>,
                                          h1: (K, nat) -> nat, h2: K -> bv7, salt: nat, i: nat, h: Ctrl, x: K)
    requires Shaped(c, cap) && |sl| == cap && i < cap && c[i] == Deleted && h != Sentinel && x in pos
    requires PlacedOrWaiting(c, sl, cap, k, pos, h1, h2, salt, i, x) && pos[x] != i
    ensures PlacedOrWaiting(SetCtrl(c, cap, i, h), sl, cap, k, pos, h1, h2, salt, i, x)
  {
    hide SetCtrl, FirstRoom, StartOf;
    SetCtrlShaped(c, cap, i, h);
    if c[pos[x]] == Full(h2(x)) {
      FirstRoomElsewhere(c, cap, k, i, h, StartOf(h1, salt, cap, x), pos[x]);
    }
  }

  lemma SameSlot<K(!new), V(!new)>(c: seq<Ctrl>, sl: seq<Slot<K, V>>, sl': seq<Slot<K, V>>, cap: nat, k: nat,
                                   pos: map<K, nat>, pos': map<K, nat>,
                                   h1: (K, nat) -> nat, h2: K -> bv7, salt: nat, i: nat, x: K)
    requires |c| == cap + 8 && |sl| == cap && |sl'| == cap && x in pos && x in pos'
    requires PlacedOrWaiting(c, sl, cap, k, pos, h1, h2, salt, i, x)
    requires pos'[x] == pos[x] && sl'[pos[x]] == sl[pos[x]]
    ensures PlacedOrWaiting(c, sl', cap, k, pos', h1, h2, salt, i, x)
  {
  }

  /** The entry at `i` changes places with a waiting one, which now waits at `i`. */
  lemma RehashSwap<K(!new), V(!new)>(c: seq<Ctrl>, sl: seq<Slot<K, V>>, cap: nat, k: nat, pos: map<K, nat>,
                                     h1: (K, nat) -> nat, h2: K -> bv7, salt: nat, i: nat, q: nat)
    requires Rehashing(c, sl, cap, k, pos, h1, h2, salt, i) && i < cap && c[i] == Deleted && sl[i].Entry?
    requires q < cap && q != i && c[q] == Deleted && sl[q].Entry?
             && FirstRoom(c, cap, k, StartOf(h1, salt, cap, sl[i].key), q)
    ensures var key, other := sl[i].key, sl[q].key;
            Rehashing(SetCtrl(c, cap, q, Full(h2(key))), sl[q := sl[i]][i := sl[q]], cap, k,
                      pos[key := q][other := i], h1, h2, salt, i)
  {
    hide SetCtrl, FirstRoom, StartOf, PlacedOrWaiting;
    var key, other := sl[i].key, sl[q].key;
    var h := Full(h2(key));
    var c' := SetCtrl(c, cap, q, h);
    SetCtrlShaped(c, cap, q, h);
    var sl', pos' := sl[q := sl[i]][i := sl[q]], pos[key := q][other := i];
    assert key != other;
    forall x | x in pos'
      ensures PlacedOrWaiting(c', sl', cap, k, pos', h1, h2, salt, i, x)
    {
      assert PlacedOrWaiting(c, sl, cap, k, pos, h1, h2, salt, i, x);
      Slots(c, sl, cap, k, pos, h1, h2, salt, i, x);
      if x == key {
        FirstRoomAfter(c, cap, k, q, h, StartOf(h1, salt, cap, key), q);
        IsPlaced(c', sl', cap, k, pos', h1, h2, salt, i, x);
      } else if x == other {
        IsWaiting(c', sl', cap, k, pos', h1, h2, salt, i, x);
      } else {
        OthersKeep(c, sl, cap, k, pos, h1, h2, salt, i, q, h, x);
        SameSlot(c', sl, sl', cap, k, pos, pos', h1, h2, salt, i, x);
      }
    }
  }

  lemma IsWaiting<K(!new), V(!new)>(c: seq<Ctrl>, sl: seq<Slot<K, V>>, cap: nat, k: nat, pos: map<K, nat>,
                                    h1: (K, nat) -> nat, h2: K -> bv7, salt: nat, i: nat, x: K)
    requires |c| == cap + 8 && |sl| == cap && x in pos && pos[x] < cap && sl[pos[x]].Entry? && sl[pos[x]].key == x
    requires c[pos[x]] == Deleted && i <= pos[x]
    ensures PlacedOrWaiting(c, sl, cap, k, pos, h1, h2, salt, i, x)
  {
  }

  /** When no entry waits any more the table is in order again. */
  lemma RehashDone<K(!new), V(!new)>(c: seq<Ctrl>, sl: seq<Slot<K, V>>, cap: nat, k: nat, pos: map<K, nat>,
                                     h1: (K, nat) -> nat, h2: K -> bv7, salt: nat)
    requires Rehashing(c, sl, cap, k, pos, h1, h2, salt, cap)
    ensures Shaped(c, cap) && Indexed(c, sl, cap, pos, h2) && Findable(c, cap, k, pos, h1, salt)
    ensures forall q :: 0 <= q < cap ==> c[q] != Deleted
  {
    hide FirstRoom, Reach, StartOf;
    forall x | x in pos
      ensures pos[x] < cap && c[pos[x]] == Full(h2(x)) && Reach(c, cap, k, StartOf(h1, salt, cap, x), pos[x])
    {
      assert PlacedOrWaiting(c, sl, cap, k, pos, h1, h2, salt, cap, x);
      FirstRoomReach(c, cap, k, StartOf(h1, salt, cap, x), pos[x]);
    }
  }
}
