/**
 Counting control bytes, reading a window through the group tricks, and the
 correspondence between stored keys and slots.
 */
module SwissIndex {
  import opened SwissGroup
  import opened SwissSpec

  // --- counting ---

  datatype Kind = KEmpty | KDeleted | KFull

  predicate Is(c: Ctrl, k: Kind) {
    match k
    case KEmpty => c.Empty?
    case KDeleted => c.Deleted?
    case KFull => c.Full?
  }

  function One(b: bool): nat {
    if b then 1 else 0
  }

  function Count(s: seq<Ctrl>, k: Kind): nat {
    if s == [] then 0 else Count(s[..|s| - 1], k) + One(Is(s[|s| - 1], k))
  }

  lemma {:induction false} CountUpdate(s: seq<Ctrl>, i: nat, h: Ctrl, k: Kind)
    requires i < |s|
    ensures Count(s[i := h], k) + One(Is(s[i], k)) == Count(s, k) + One(Is(h, k))
  {
    hide Is, One;
    var n := |s| - 1;
    if i == n {
      assert s[i := h][..n] == s[..n];
    } else {
      CountUpdate(s[..n], i, h, k);
      assert s[i := h][..n] == s[..n][i := h];
    }
  }

  lemma {:induction false} CountTotal(s: seq<Ctrl>)
    requires forall i :: 0 <= i < |s| ==> s[i] != Sentinel
    ensures Count(s, KEmpty) + Count(s, KDeleted) + Count(s, KFull) == |s|
  {
    if s != [] {
      var n := |s| - 1;
      CountTotal(s[..n]);
      assert s[n] != Sentinel;
    }
  }

  lemma {:induction false} CountSome(s: seq<Ctrl>, k: Kind) returns (i: nat)
    requires Count(s, k) > 0
    ensures i < |s| && Is(s[i], k)
  {
    hide Is;
    var n := |s| - 1;
    if Is(s[n], k) {
      i := n;
    } else {
      i := CountSome(s[..n], k);
    }
  }

  /** All empty, as after `CWISS_ResetCtrl`. */
  lemma {:induction false} CountAllEmpty(s: seq<Ctrl>)
    requires forall i :: 0 <= i < |s| ==> s[i] == Empty
    ensures Count(s, KEmpty) == |s| && Count(s, KFull) == 0
  {
    if s != [] {
      CountAllEmpty(s[..|s| - 1]);
      assert s[|s| - 1] == Empty;
    }
  }

  /** Conversion leaves as many deleted bytes as there were full ones, and no full one. */
  lemma {:induction false} CountConverted(s: seq<Ctrl>, t: seq<Ctrl>)
    requires |s| == |t| && forall i :: 0 <= i < |s| ==> t[i] == Converted(s[i])
    ensures Count(t, KDeleted) == Count(s, KFull) && Count(t, KFull) == 0
  {
    if s != [] {
      var n := |s| - 1;
      CountConverted(s[..n], t[..n]);
      assert t[n] == Converted(s[n]);
    }
  }

  /** Setting a control byte shifts the counts of the table's own bytes. */
  lemma SetCtrlCount(c: seq<Ctrl>, cap: nat, i: nat, h: Ctrl, k: Kind)
    requires CapOk(cap) && |c| == cap + 8 && i < cap
    ensures Count(SetCtrl(c, cap, i, h)[..cap], k) + One(Is(c[i], k)) == Count(c[..cap], k) + One(Is(h, k))
  {
    hide Count, Is, One, MirrorOf;
    CountUpdate(c[..cap], i, h, k);
    assert SetCtrl(c, cap, i, h)[..cap] == c[..cap][i := h];
  }

  // --- reading a window ---

  predicate Room(c: Ctrl) {
    c.Empty? || c.Deleted?
  }

  /** The mask of a window is empty exactly when the window is crowded. */
  lemma RoomMask(c: seq<Ctrl>, off: nat)
    requires off + 8 <= |c|
    ensures var m := MatchEmptyOrDeleted(Load(c[off..off + 8]));
            && IsMask(m)
            && (m == 0 <==> Crowded(c, off))
            && (m != 0 ==> Lowest(m) < 8 && Room(c[off + Lowest(m)])
                           && (forall j :: off <= j < off + Lowest(m) ==> !Room(c[j])))
            && (m != 0 ==> Highest(m) < 8 && Room(c[off + Highest(m)]))
  {
    hide Load, MatchEmptyOrDeleted, Lane, Lowest, Highest, IsMask;
    var w := c[off..off + 8];
    var m := MatchEmptyOrDeleted(Load(w));
    forall j | 0 <= j < 8
      ensures IsMask(m) && (Lane(m, j) <==> Room(c[off + j]))
    {
      EmptyOrDeletedLanes(w, j);
      assert w[j] == c[off + j];
    }
    assert IsMask(m) by {
      EmptyOrDeletedLanes(w, 0);
    }
    SomeLane(m);
    if m != 0 {
      LowestIs(m);
      HighestIs(m);
      forall x | off <= x < off + Lowest(m)
        ensures !Room(c[x])
      {
        assert !Lane(m, x - off);
      }
      assert !Crowded(c, off);
    } else {
      forall x | off <= x < off + 8
        ensures !Room(c[x])
      {
        assert !Lane(m, x - off);
      }
    }
  }

  /** The same for empty bytes, as searches and erasures read them. */
  lemma EmptyMask(c: seq<Ctrl>, off: nat)
    requires off + 8 <= |c|
    ensures var m := MatchEmpty(Load(c[off..off + 8]));
            && IsMask(m)
            && (m == 0 <==> NoEmpty(c, off))
            && (m != 0 ==> Lowest(m) < 8 && c[off + Lowest(m)] == Empty
                           && forall x :: off <= x < off + Lowest(m) ==> c[x] != Empty)
            && (m != 0 ==> Highest(m) < 8 && c[off + Highest(m)] == Empty && LeadingLanes(m) == 7 - Highest(m))
            && (m != 0 ==> forall x :: off + Highest(m) < x < off + 8 ==> c[x] != Empty)
  {
    hide Load, MatchEmpty, Lane, Lowest, Highest, IsMask, LeadingLanes;
    var w := c[off..off + 8];
    var m := MatchEmpty(Load(w));
    forall j | 0 <= j < 8
      ensures IsMask(m) && (Lane(m, j) <==> c[off + j] == Empty)
    {
      EmptyLanes(w, j);
      assert w[j] == c[off + j];
    }
    assert IsMask(m) by {
      EmptyLanes(w, 0);
    }
    SomeLane(m);
    if m != 0 {
      LowestIs(m);
      HighestIs(m);
      forall x | off <= x < off + 8
        ensures c[x] == Empty <==> Lane(m, x - off)
      {
        assert Lane(m, x - off) <==> c[off + (x - off)] == Empty;
      }
    } else {
      forall x | off <= x < off + 8
        ensures c[x] != Empty
      {
        assert !Lane(m, x - off);
      }
    }
  }

  /** The lanes a mask reports. */
  ghost function Lanes(m: bv64): set<nat> {
    set j: nat | j < 8 && Lane(m, j)
  }

  lemma LanesNext(m: bv64)
    requires IsMask(m) && m != 0
    ensures Lowest(m) < 8 && Lowest(m) in Lanes(m)
    ensures IsMask(Drop(m)) && Lanes(Drop(m)) == Lanes(m) - {Lowest(m)}
  {
    hide Lane, Lowest, Drop, IsMask;
    LowestIs(m);
    NextLanes(m, 0);
    forall j: nat | j < 8
      ensures Lane(Drop(m), j) <==> Lane(m, j) && j != Lowest(m)
    {
      NextLanes(m, j);
    }
  }

  lemma LanesNone(m: bv64)
    requires IsMask(m)
    ensures m == 0 <==> Lanes(m) == {}
  {
    hide Lane, IsMask;
    SomeLane(m);
    if m != 0 {
      var j :| 0 <= j < 8 && Lane(m, j);
      assert j in Lanes(m);
    }
  }

  /** A match reports every byte that equals `h` and only full bytes. */
  lemma MatchSet(c: seq<Ctrl>, off: nat, h: bv7)
    requires off + 8 <= |c|
    ensures var m := Match(Load(c[off..off + 8]), h);
            && IsMask(m)
            && (forall j :: j in Lanes(m) ==> c[off + j].Full?)
            && (forall x :: off <= x < off + 8 && c[x] == Full(h) ==> x - off in Lanes(m))
  {
    hide Load, Match, Lane, IsMask;
    var w := c[off..off + 8];
    var m := Match(Load(w), h);
    MatchLanes(w, h, 0);
    forall j | 0 <= j < 8
      ensures (w[j] == Full(h) ==> Lane(m, j)) && (Lane(m, j) ==> w[j].Full?)
    {
      MatchLanes(w, h, j);
    }
    forall x | off <= x < off + 8 && c[x] == Full(h)
      ensures x - off in Lanes(m)
    {
      assert w[x - off] == c[x];
    }
  }

  // --- keys and slots ---

  /** Start position of a key's probes: `H1(hash, salt) & cap`. */
  function StartOf<K>(h1: (K, nat) -> nat, salt: nat, cap: nat, key: K): (s: nat)
    ensures s <= cap
  {
    Mask(h1(key, salt), cap + 1)
  }

  /** `pos` says where each key sits; every full byte belongs to exactly one key. */
  ghost predicate Indexed<K(!new), V(!new)>(c: seq<Ctrl>, sl: seq<Slot<K, V>>, cap: nat, pos: map<K, nat>, h2: K -> bv7)
    requires |c| == cap + 8
  {
    && |sl| == cap
    && (forall x :: x in pos ==> pos[x] < cap && sl[pos[x]].Entry? && sl[pos[x]].key == x && c[pos[x]] == Full(h2(x)))
    && (forall q :: 0 <= q < cap && c[q].Full? ==> sl[q].Entry? && sl[q].key in pos && pos[sl[q].key] == q)
  }

  ghost predicate Findable<K(!new)>(c: seq<Ctrl>, cap: nat, k: nat, pos: map<K, nat>, h1: (K, nat) -> nat, salt: nat)
    requires |c| == cap + 8
  {
    forall x :: x in pos ==> pos[x] < cap && Reach(c, cap, k, StartOf(h1, salt, cap, x), pos[x])
  }

  /** What the table stores. */
  ghost function Stored<K, V>(sl: seq<Slot<K, V>>, pos: map<K, nat>): map<K, V>
  {
    map x | x in pos && pos[x] < |sl| && sl[pos[x]].Entry? :: sl[pos[x]].val
  }

  /** A new key goes into a slot with room. */
  lemma IndexedInsert<K(!new), V(!new)>(c: seq<Ctrl>, sl: seq<Slot<K, V>>, cap: nat, pos: map<K, nat>, h2: K -> bv7,
                                        q: nat, key: K, val: V)
    requires Shaped(c, cap) && Indexed(c, sl, cap, pos, h2)
    requires q < cap && Room(c[q]) && key !in pos
    ensures Indexed(SetCtrl(c, cap, q, Full(h2(key))), sl[q := Entry(key, val)], cap, pos[key := q], h2)
    ensures Stored(sl[q := Entry(key, val)], pos[key := q]) == Stored(sl, pos)[key := val]
  {
    hide SetCtrl, Stored;
    SetCtrlShaped(c, cap, q, Full(h2(key)));
    assert forall x :: x in pos ==> pos[x] != q;
    StoredInsert(sl, cap, pos, q, key, val);
  }

  lemma StoredInsert<K(!new), V(!new)>(sl: seq<Slot<K, V>>, cap: nat, pos: map<K, nat>, q: nat, key: K, val: V)
    requires |sl| == cap && q < cap && key !in pos
    requires forall x :: x in pos ==> pos[x] < cap && sl[pos[x]].Entry? && pos[x] != q
    ensures Stored(sl[q := Entry(key, val)], pos[key := q]) == Stored(sl, pos)[key := val]
  {
  }

  lemma FindableInsert<K(!new)>(c: seq<Ctrl>, cap: nat, k: nat, pos: map<K, nat>, h1: (K, nat) -> nat, salt: nat,
                                q: nat, key: K, h: Ctrl)
    requires Shaped(c, cap) && Findable(c, cap, k, pos, h1, salt) && h.Full?
    requires q < cap && FirstRoom(c, cap, k, StartOf(h1, salt, cap, key), q)
    ensures Findable(SetCtrl(c, cap, q, h), cap, k, pos[key := q], h1, salt)
  {
    hide SetCtrl, Reach, FirstRoom, StartOf;
    var c' := SetCtrl(c, cap, q, h);
    FirstRoomReach(c, cap, k, StartOf(h1, salt, cap, key), q);
    forall x | x in pos[key := q]
      ensures Reach(c', cap, k, StartOf(h1, salt, cap, x), pos[key := q][x])
    {
      ReachAfter(c, cap, k, q, h, StartOf(h1, salt, cap, x), pos[key := q][x]);
    }
  }

  /** A key leaves its slot. */
  lemma IndexedErase<K(!new), V(!new)>(c: seq<Ctrl>, sl: seq<Slot<K, V>>, cap: nat, pos: map<K, nat>, h2: K -> bv7,
                                       key: K, h: Ctrl)
    requires Shaped(c, cap) && Indexed(c, sl, cap, pos, h2) && key in pos && (h == Empty || h == Deleted)
    ensures Indexed(SetCtrl(c, cap, pos[key], h), sl, cap, pos - {key}, h2)
    ensures Stored(sl, pos - {key}) == Stored(sl, pos) - {key}
  {
    SetCtrlShaped(c, cap, pos[key], h);
    hide SetCtrl;
  }

  lemma FindableErase<K(!new)>(c: seq<Ctrl>, cap: nat, k: nat, pos: map<K, nat>, h1: (K, nat) -> nat, salt: nat,
                               key: K, h: Ctrl, a: nat, b: nat)
    requires Shaped(c, cap) && Findable(c, cap, k, pos, h1, salt) && key in pos
    requires h == Deleted || (h == Empty && a < 8 && b < 8 && NeverFull(c, cap, pos[key], a, b))
    ensures Findable(SetCtrl(c, cap, pos[key], h), cap, k, pos - {key}, h1, salt)
  {
    hide SetCtrl, Reach, NeverFull, StartOf;
    var q := pos[key];
    forall x | x in pos - {key}
      ensures Reach(SetCtrl(c, cap, q, h), cap, k, StartOf(h1, salt, cap, x), pos[x])
    {
      if h == Deleted {
        ReachAfter(c, cap, k, q, h, StartOf(h1, salt, cap, x), pos[x]);
      } else {
        ReachAfterErase(c, cap, k, q, a, b, StartOf(h1, salt, cap, x), pos[x]);
      }
    }
  }
}
