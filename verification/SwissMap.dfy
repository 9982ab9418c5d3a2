/**
 include/sdb/cwisstable.h: the table object. Every operation keeps the whole
 invariant and acts on the stored map exactly as its name says, whatever
 rehashing it triggers on the way.
 */
module SwissMap {
  import opened Collections
  import opened Options
  import opened SwissGroup
  import opened SwissProbe
  import opened SwissSpec
  import opened SwissIndex
  import opened SwissTable
  import opened SwissRehash

  /** Bytes, slots and positions agree and every key can be found. */
  ghost predicate TableOk<K(!new), V(!new)>(c: seq<Ctrl>, sl: seq<Slot<K, V>>, cap: nat, k: nat, pos: map<K, nat>,
                                            h1: (K, nat) -> nat, h2: K -> bv7, salt: nat) {
    Shaped(c, cap) && Sized(cap, k) && Indexed(c, sl, cap, pos, h2) && Findable(c, cap, k, pos, h1, salt)
  }

  /** `size_` and `growth_left_` agree with the control bytes. */
  ghost predicate Counted(c: seq<Ctrl>, cap: nat, size: nat, growthLeft: nat)
    requires |c| == cap + 8
  {
    && Count(c[..cap], KFull) == size
    && Count(c[..cap], KEmpty) + Growth(cap) == growthLeft + cap
  }

  /** The load limit leaves an empty byte in every table of seven slots or more. */
  lemma CountedEmpty(c: seq<Ctrl>, cap: nat, size: nat, growthLeft: nat)
    requires |c| == cap + 8 && Counted(c, cap, size, growthLeft)
    ensures cap >= 7 || growthLeft > 0 ==> HasEmpty(c, cap) && HasRoom(c, cap)
  {
    if cap >= 7 || growthLeft > 0 {
      assert Count(c[..cap], KEmpty) > 0 by {
        hide Count;
        GrowthBelow(cap);
      }
      var i := CountSome(c[..cap], KEmpty);
      assert c[i] == Empty;
      assert Room(c[i]);
    }
  }

  lemma GrowthBelow(cap: nat)
    ensures Growth(cap) <= cap && (cap >= 7 ==> Growth(cap) < cap) && (cap < 7 ==> Growth(cap) == cap)
  {
  }

  /** Filling a slot that had room. */
  lemma CountedInsert(c: seq<Ctrl>, cap: nat, size: nat, growthLeft: nat, q: nat, h: Ctrl)
    requires Shaped(c, cap) && Counted(c, cap, size, growthLeft) && q < cap && Room(c[q]) && h.Full?
    requires c[q] == Empty ==> growthLeft > 0
    ensures Counted(SetCtrl(c, cap, q, h), cap, size + 1, growthLeft - One(c[q] == Empty))
  {
    hide Count, Growth, SetCtrl;
    SetCtrlCount(c, cap, q, h, KFull);
    SetCtrlCount(c, cap, q, h, KEmpty);
  }

  lemma CountedErase(c: seq<Ctrl>, cap: nat, size: nat, growthLeft: nat, q: nat, h: Ctrl)
    requires Shaped(c, cap) && Counted(c, cap, size, growthLeft) && q < cap && c[q].Full?
             && (h == Empty || h == Deleted) && size > 0
    ensures Counted(SetCtrl(c, cap, q, h), cap, size - 1, growthLeft + One(h == Empty))
  {
    hide Count, Growth, SetCtrl;
    SetCtrlCount(c, cap, q, h, KFull);
    SetCtrlCount(c, cap, q, h, KEmpty);
  }

  lemma OkInsert<K(!new), V(!new)>(c: seq<Ctrl>, sl: seq<Slot<K, V>>, cap: nat, k: nat, pos: map<K, nat>,
                                   h1: (K, nat) -> nat, h2: K -> bv7, salt: nat, q: nat, key: K, val: V)
    requires TableOk(c, sl, cap, k, pos, h1, h2, salt) && key !in pos
    requires q < cap && Room(c[q]) && FirstRoom(c, cap, k, StartOf(h1, salt, cap, key), q)
    ensures TableOk(SetCtrl(c, cap, q, Full(h2(key))), sl[q := Entry(key, val)], cap, k, pos[key := q], h1, h2, salt)
    ensures Stored(sl[q := Entry(key, val)], pos[key := q]) == Stored(sl, pos)[key := val]
  {
    hide SetCtrl, Findable, FirstRoom, Sized, StartOf;
    SetCtrlShaped(c, cap, q, Full(h2(key)));
    IndexedInsert(c, sl, cap, pos, h2, q, key, val);
    FindableInsert(c, cap, k, pos, h1, salt, q, key, Full(h2(key)));
  }

  lemma OkErase<K(!new), V(!new)>(c: seq<Ctrl>, sl: seq<Slot<K, V>>, cap: nat, k: nat, pos: map<K, nat>,
                                  h1: (K, nat) -> nat, h2: K -> bv7, salt: nat, key: K, h: Ctrl, a: nat, b: nat)
    requires TableOk(c, sl, cap, k, pos, h1, h2, salt) && key in pos
    requires h == Deleted || (h == Empty && a < 8 && b < 8 && NeverFull(c, cap, pos[key], a, b))
    ensures TableOk(SetCtrl(c, cap, pos[key], h), sl, cap, k, pos - {key}, h1, h2, salt)
    ensures Stored(sl, pos - {key}) == Stored(sl, pos) - {key}
  {
    hide SetCtrl, Findable, NeverFull, Sized;
    SetCtrlShaped(c, cap, pos[key], h);
    IndexedErase(c, sl, cap, pos, h2, key, h);
    FindableErase(c, cap, k, pos, h1, salt, key, h, a, b);
  }

  /** Freshly reset control bytes: `CWISS_ResetCtrl`. */
  lemma OkEmpty<K(!new), V(!new)>(c: seq<Ctrl>, sl: seq<Slot<K, V>>, cap: nat, k: nat, h1: (K, nat) -> nat,
                                  h2: K -> bv7, salt: nat)
    requires CapOk(cap) && Sized(cap, k) && |c| == cap + 8 && |sl| == cap
    requires forall x :: 0 <= x < cap + 8 ==> c[x] == if x == cap then Sentinel else Empty
    ensures TableOk(c, sl, cap, k, map[], h1, h2, salt)
    ensures Count(c[..cap], KFull) == 0 && Count(c[..cap], KEmpty) == cap
  {
    CountAllEmpty(c[..cap]);
    hide Count;
    forall x | cap < x < cap + 8
      ensures c[x] == Tail(c, cap, x)
    {
    }
  }

  lemma OkFacts<K(!new), V(!new)>(c: seq<Ctrl>, sl: seq<Slot<K, V>>, cap: nat, k: nat, pos: map<K, nat>,
                                  h1: (K, nat) -> nat, h2: K -> bv7, salt: nat)
    requires TableOk(c, sl, cap, k, pos, h1, h2, salt)
    ensures Shaped(c, cap) && Sized(cap, k) && |c| == cap + 8 && |sl| == cap && Indexed(c, sl, cap, pos, h2)
            && CapOk(cap)
    ensures forall x :: x in pos ==> pos[x] < cap && sl[pos[x]].Entry? && sl[pos[x]].key == x && c[pos[x]].Full?
  {
  }

  lemma OkIndexed<K(!new), V(!new)>(c: seq<Ctrl>, sl: seq<Slot<K, V>>, cap: nat, k: nat, pos: map<K, nat>,
                                    h1: (K, nat) -> nat, h2: K -> bv7, salt: nat)
    requires TableOk(c, sl, cap, k, pos, h1, h2, salt)
    ensures |c| == cap + 8 && Indexed(c, sl, cap, pos, h2)
  {
  }

  lemma OkKeys<K(!new), V(!new)>(c: seq<Ctrl>, sl: seq<Slot<K, V>>, cap: nat, k: nat, pos: map<K, nat>,
                                 h1: (K, nat) -> nat, h2: K -> bv7, salt: nat)
    requires TableOk(c, sl, cap, k, pos, h1, h2, salt)
    ensures Shaped(c, cap) && Sized(cap, k) && |c| == cap + 8 && |sl| == cap && CapOk(cap)
            && Stored(sl, pos).Keys == pos.Keys
  {
    hide TableOk, Stored, Shaped, Sized, Indexed;
    OkFacts(c, sl, cap, k, pos, h1, h2, salt);
    StoredKeys(sl, pos);
  }

  lemma OkReach<K(!new), V(!new)>(c: seq<Ctrl>, sl: seq<Slot<K, V>>, cap: nat, k: nat, pos: map<K, nat>,
                                  h1: (K, nat) -> nat, h2: K -> bv7, salt: nat, key: K)
    requires TableOk(c, sl, cap, k, pos, h1, h2, salt) && key in pos
    ensures pos[key] < cap && |c| == cap + 8 && Reach(c, cap, k, StartOf(h1, salt, cap, key), pos[key])
  {
    hide Reach, StartOf;
  }

  /** One entry goes into the new arrays during a resize. */
  method Reinsert<K(==, !new), V(!new)>(ctrl: array<Ctrl>, slots: array<Slot<K, V>>, cap: nat, ghost k: nat,
                                        ghost pos: map<K, nat>,
                                        h1: (K, nat) -> nat, h2: K -> bv7, salt: nat, key: K, val: V)
    returns (ghost at: nat)
    requires ctrl as object != slots && ctrl.Length == cap + 8
    requires TableOk(ctrl[..], slots[..], cap, k, pos, h1, h2, salt) && key !in pos
    requires |pos| < Growth(cap) && Counted(ctrl[..], cap, |pos|, Growth(cap) - |pos|)
    modifies ctrl, slots
    ensures at < cap == slots.Length && (forall x :: x in pos ==> pos[x] != at) && |pos[key := at]| == |pos| + 1
    ensures slots[..] == old(slots[..])[at := Entry(key, val)]
    ensures TableOk(ctrl[..], slots[..], cap, k, pos[key := at], h1, h2, salt)
    ensures Counted(ctrl[..], cap, |pos| + 1, Growth(cap) - |pos| - 1)
  {
    hide TableOk, Counted, Growth, Shaped, Indexed, Sized, FirstRoom, StartOf, HasRoom, HasEmpty, SetCtrl, CapOk,
         Stored;
    ghost var c, sl := ctrl[..], slots[..];
    OkFacts(c, sl, cap, k, pos, h1, h2, salt);
    CountedEmpty(c, cap, |pos|, Growth(cap) - |pos|);
    var q := FindFirstNonFull(ctrl, StartOf(h1, salt, cap, key), cap, k);
    NoDeletedYet(c, cap, |pos|, Growth(cap) - |pos|, q);
    InsertOk(c, sl, cap, k, pos, h1, h2, salt, q, key, val, |pos|, Growth(cap) - |pos|);
    SetCtrlAt(ctrl, cap, q, Full(h2(key)));
    slots[q] := Entry(key, val);
    assert slots[..] == sl[q := Entry(key, val)];
    at := q;
  }

  /** `CWISS_SetCtrl`. */
  method SetCtrlAt(ctrl: array<Ctrl>, cap: nat, i: nat, h: Ctrl)
    requires CapOk(cap) && ctrl.Length == cap + 8 && i < cap
    modifies ctrl
    ensures ctrl[..] == SetCtrl(old(ctrl[..]), cap, i, h)
  {
    var m := MirrorOf(cap, i);
    ctrl[i] := h;
    ctrl[m] := h;
  }

  /** `CWISS_ConvertDeletedToEmptyAndFullToDeleted`: group by group over the bytes
      and the sentinel, then the tail and the sentinel again. */
  method ConvertAll(ctrl: array<Ctrl>, cap: nat, ghost k: nat)
    requires Shaped(ctrl[..], cap) && Big(cap, k)
    modifies ctrl
    ensures Shaped(ctrl[..], cap)
    ensures forall q :: 0 <= q < cap ==> ctrl[q] == Converted(old(ctrl[q]))
  {
    var p := 0;
    ghost var g := 0;
    while p < cap
      invariant p == 8 * g && g <= Pow2(k - 3)
      invariant forall q :: 0 <= q < p ==> ctrl[q] == Converted(old(ctrl[q]))
      invariant forall q :: p <= q < cap + 8 ==> ctrl[q] == old(ctrl[q])
    {
      StoreConverted(ctrl, p);
      p := p + 8;
      g := g + 1;
    }
    for j := 0 to 7
      invariant forall q :: 0 <= q < cap ==> ctrl[q] == Converted(old(ctrl[q]))
      invariant forall x :: cap < x < cap + 1 + j ==> ctrl[x] == ctrl[x - cap - 1]
    {
      ctrl[cap + 1 + j] := ctrl[j];
    }
    ctrl[cap] := Sentinel;
  }

  /** One group: the states stored are those of the converted word. */
  method StoreConverted(ctrl: array<Ctrl>, p: nat)
    requires p + 8 <= ctrl.Length
    modifies ctrl
    ensures forall q :: p <= q < p + 8 ==> ctrl[q] == Converted(old(ctrl[q]))
    ensures forall q :: 0 <= q < ctrl.Length && !(p <= q < p + 8) ==> ctrl[q] == old(ctrl[q])
    ensures Load(ctrl[p..p + 8]) == ConvertSpecial(Load(old(ctrl[p..p + 8])))
  {
    hide Load, ConvertSpecial, Converted;
    ghost var w := ctrl[p..p + 8];
    for j := 0 to 8
      invariant forall q :: p <= q < p + j ==> ctrl[q] == Converted(old(ctrl[q]))
      invariant forall q :: 0 <= q < ctrl.Length && !(p <= q < p + j) ==> ctrl[q] == old(ctrl[q])
    {
      ctrl[p + j] := Converted(ctrl[p + j]);
    }
    assert forall j :: 0 <= j < 8 ==> ctrl[p..p + 8][j] == Converted(w[j]);
    ConvertWord(w, ctrl[p..p + 8]);
  }

  class RawTable<K(==, !new), V(!new)> {
    const h1: (K, nat) -> nat
    const h2: K -> bv7
    var ctrl: array<Ctrl>
    var slots: array<Slot<K, V>>
    var size: nat
    var capacity: nat
    var growthLeft: nat
    var salt: nat
    ghost var k: nat
    ghost var pos: map<K, nat>

    ghost predicate Valid()
      reads this, ctrl, slots
    {
      && ctrl as object != slots
      && TableOk(ctrl[..], slots[..], capacity, k, pos, h1, h2, salt)
      && ctrl.Length == capacity + 8
      && Counted(ctrl[..], capacity, size, growthLeft) && size == |pos|
    }

    /** The map the table stands for. */
    ghost function Model(): map<K, V>
      reads this, slots
    {
      Stored(slots[..], pos)
    }

    /** `CWISS_RawTable_new`: the shared group of empty bytes, or room for `n` slots. */
    constructor (h1: (K, nat) -> nat, h2: K -> bv7, n: nat)
      ensures Valid() && Model() == map[] && this.h1 == h1 && this.h2 == h2
      ensures fresh(ctrl) && fresh(slots) && n <= capacity && (n > 0 ==> capacity < 2 * n)
              && growthLeft == Growth(capacity)
    {
      var bits := Bits(n);
      var cap := Pow2(bits) - 1;
      BitsSized(n);
      var c := new Ctrl[cap + 8](x => if x == cap then Sentinel else Empty);
      var sl := new Slot<K, V>[cap](_ => Vacant);
      this.h1, this.h2 := h1, h2;
      ctrl, slots := c, sl;
      size, capacity, growthLeft, k, pos := 0, cap, Growth(cap), bits, map[];
      salt := *;
      new;
      NewOk(ctrl[..], slots[..], capacity, k, h1, h2, salt);
    }

    /** `CWISS_RawTable_find`. */
    method Find(key: K) returns (r: Option<V>)
      requires Valid()
      ensures r == if key in Model() then Some(Model()[key]) else None
    {
      var i := Locate(key);
      if i.None? {
        return None;
      }
      OkFacts(ctrl[..], slots[..], capacity, k, pos, h1, h2, salt);
      return Some(slots[i.value].val);
    }

    method Locate(key: K) returns (i: Option<nat>)
      requires Valid()
      ensures i == if key in pos then Some(pos[key]) else None
    {
      hide TableOk, Counted, Reach, StartOf, Indexed, Shaped, Sized, HasEmpty, HasRoom;
      OkFacts(ctrl[..], slots[..], capacity, k, pos, h1, h2, salt);
      CountedEmpty(ctrl[..], capacity, size, growthLeft);
      if key in pos {
        OkReach(ctrl[..], slots[..], capacity, k, pos, h1, h2, salt, key);
      }
      i := FindIndex(ctrl, slots, key, StartOf(h1, salt, capacity, key), h2(key), capacity, k, pos, h2);
    }

    /** `CWISS_RawTable_erase`. */
    method Erase(key: K) returns (erased: bool)
      requires Valid()
      modifies this, ctrl
      ensures Valid() && ctrl == old(ctrl) && slots == old(slots)
      ensures erased <==> key in old(Model())
      ensures Model() == old(Model()) - {key}
    {
      hide TableOk, Counted, Reach, StartOf, Shaped, Sized, Indexed, Stored;
      OkKeys(ctrl[..], slots[..], capacity, k, pos, h1, h2, salt);
      var i := Locate(key);
      if i.None? {
        assert Model() == old(Model()) - {key};
        return false;
      }
      EraseMetaOnly(key, i.value);
      return true;
    }

    /** `CWISS_RawTable_EraseMetaOnly`: the slot becomes empty when no probe window
        around it was ever full, and deleted otherwise. */
    method EraseMetaOnly(ghost key: K, index: nat)
      requires Valid() && key in pos && pos[key] == index
      modifies this, ctrl
      ensures Valid() && ctrl == old(ctrl) && slots == old(slots)
      ensures Model() == old(Model()) - {key}
    {
      hide TableOk, Counted, SetCtrl, NeverFull, Stored, One, CapOk, NoEmpty, Before;
      ghost var c, sl := ctrl[..], slots[..];
      OkAt(c, sl, capacity, k, pos, h1, h2, salt, key);
      ghost var a, b;
      var wasNeverFull;
      wasNeverFull, a, b := WasNeverFull(ctrl, index, capacity);
      var h := if wasNeverFull then Empty else Deleted;
      EraseOk(c, sl, capacity, k, pos, h1, h2, salt, key, h, a, b, size, growthLeft);
      size := size - 1;
      SetCtrlAt(ctrl, capacity, index, h);
      growthLeft := growthLeft + One(h == Empty);
      pos := pos - {key};
      assert slots[..] == sl;
    }

    /** Writes a new entry into a slot with room. */
    method Place(key: K, val: V, q: nat)
      requires Valid() && key !in pos && q < capacity && Room(ctrl[q])
      requires FirstRoom(ctrl[..], capacity, k, StartOf(h1, salt, capacity, key), q)
      requires ctrl[q] == Empty ==> growthLeft > 0
      modifies this, ctrl, slots
      ensures Valid() && ctrl == old(ctrl) && slots == old(slots)
      ensures Model() == old(Model())[key := val]
    {
      hide TableOk, Counted, SetCtrl, FirstRoom, StartOf, Stored, One, CapOk;
      ghost var c, sl := ctrl[..], slots[..];
      InsertOk(c, sl, capacity, k, pos, h1, h2, salt, q, key, val, size, growthLeft);
      size := size + 1;
      growthLeft := growthLeft - One(ctrl[q] == Empty);
      SetCtrlAt(ctrl, capacity, q, Full(h2(key)));
      slots[q] := Entry(key, val);
      pos := pos[key := q];
      assert slots[..] == sl[q := Entry(key, val)];
    }

    /** `CWISS_RawTable_insert`: adds the entry unless the key is there already. */
    method Insert(key: K, val: V) returns (inserted: bool)
      requires Valid()
      modifies this, ctrl, slots
      ensures Valid() && (ctrl == old(ctrl) || fresh(ctrl)) && (slots == old(slots) || fresh(slots))
      ensures inserted <==> key !in old(Model())
      ensures Model() == if inserted then old(Model())[key := val] else old(Model())
    {
      hide TableOk, Counted, Shaped, Sized, Indexed, FirstRoom, StartOf, Stored, HasRoom, HasEmpty;
      OkKeys(ctrl[..], slots[..], capacity, k, pos, h1, h2, salt);
      var i := Locate(key);
      if i.Some? {
        return false;
      }
      CountedEmpty(ctrl[..], capacity, size, growthLeft);
      var q := FindFirstNonFull(ctrl, StartOf(h1, salt, capacity, key), capacity, k);
      if growthLeft == 0 && !ctrl[q].Deleted? {
        RehashAndGrow();
        OkKeys(ctrl[..], slots[..], capacity, k, pos, h1, h2, salt);
        CountedEmpty(ctrl[..], capacity, size, growthLeft);
        q := FindFirstNonFull(ctrl, StartOf(h1, salt, capacity, key), capacity, k);
      } else if growthLeft == 0 {
        RoomAt(ctrl[..], capacity, q);
      }
      Place(key, val, q);
      return true;
    }

    /** `CWISS_RawTable_rehash_and_grow_if_necessary`: afterwards there is room to
        grow and nothing stored has changed. */
    method RehashAndGrow()
      requires Valid()
      modifies this, ctrl, slots
      ensures Valid() && (ctrl == old(ctrl) || fresh(ctrl)) && (slots == old(slots) || fresh(slots))
      ensures growthLeft > 0 && Model() == old(Model())
      ensures var small := old(capacity) > 8 && old(size) * 32 <= old(capacity) * 25;
              capacity == if small then old(capacity) else 2 * old(capacity) + 1
    {
      hide TableOk, Counted, Sized, Stored, Growth, Count;
      OkFacts(ctrl[..], slots[..], capacity, k, pos, h1, h2, salt);
      SizedDouble(capacity, k);
      SizeBound(ctrl[..], capacity, size, growthLeft);
      if capacity == 0 {
        Resize(1, k + 1);
      } else if capacity > WIDTH && size * 32 <= capacity * 25 {
        DropDeletesWithoutResize();
      } else {
        Resize(2 * capacity + 1, k + 1);
      }
    }

    /** `CWISS_RawTable_DropDeletesWithoutResize`. */
    method DropDeletesWithoutResize()
      requires Valid() && capacity > WIDTH && size < Growth(capacity)
      modifies this, ctrl, slots
      ensures Valid() && ctrl == old(ctrl) && slots == old(slots) && capacity == old(capacity)
      ensures growthLeft > 0 && Model() == old(Model())
    {
      hide TableOk, Counted, Stored, Growth, Count, Rehashing, Shaped, Indexed, Findable, SameStore, Pow2;
      ghost var c0, sl0, pos0 := ctrl[..], slots[..], pos;
      OkFacts(c0, sl0, capacity, k, pos, h1, h2, salt);
      ConvertAll(ctrl, capacity, k);
      RehashStart(c0, ctrl[..], sl0, capacity, k, pos, h1, h2, salt);
      ConvertedCounts(c0, ctrl[..], capacity, size, growthLeft);
      SameStoreStart(sl0, pos);
      var i := 0;
      while i < capacity
        invariant i <= capacity && ctrl == old(ctrl) && slots == old(slots) && capacity == old(capacity)
        invariant k == old(k) && salt == old(salt) && size == old(size) && ctrl.Length == capacity + 8
        invariant Rehashing(ctrl[..], slots[..], capacity, k, pos, h1, h2, salt, i)
        invariant Count(ctrl[..capacity], KEmpty) + size == capacity
        invariant SameStore(slots[..], pos, sl0, pos0)
        decreases Count(ctrl[..capacity], KDeleted), capacity - i
      {
        if !ctrl[i].Deleted? {
          RehashSkip(ctrl[..], slots[..], capacity, k, pos, h1, h2, salt, i);
          i := i + 1;
        } else {
          i := RehashOne(i, sl0, pos0);
        }
      }
      ghost var c := ctrl[..];
      assert ctrl[..capacity] == c[..capacity];
      RehashDone(c, slots[..], capacity, k, pos, h1, h2, salt);
      growthLeft := Growth(capacity) - size;
      RehashCounts(c, capacity, size, growthLeft);
      DoneOk(c, slots[..], capacity, k, pos, h1, h2, salt);
      SameStoreDone(slots[..], pos, sl0, pos0);
    }

    /** One round of the rehash loop: the entry waiting at `i` stays, moves to an
        empty slot, or changes places with another waiting entry. */
    method RehashOne(i: nat, ghost sl0: seq<Slot<K, V>>, ghost pos0: map<K, nat>) returns (next: nat)
      requires ctrl as object != slots && ctrl.Length == capacity + 8 && Sized(capacity, k) && capacity > WIDTH
      requires Rehashing(ctrl[..], slots[..], capacity, k, pos, h1, h2, salt, i) && i < capacity && ctrl[i] == Deleted
      requires SameStore(slots[..], pos, sl0, pos0)
      modifies ctrl, slots, `pos
      ensures i <= next <= i + 1
      ensures Rehashing(ctrl[..], slots[..], capacity, k, pos, h1, h2, salt, next)
      ensures Count(ctrl[..capacity], KEmpty) == old(Count(ctrl[..capacity], KEmpty))
      ensures Count(ctrl[..capacity], KDeleted) < old(Count(ctrl[..capacity], KDeleted))
      ensures SameStore(slots[..], pos, sl0, pos0)
    {
      hide Count, Rehashing, Shaped, Sized, SetCtrl, FirstRoom, StartOf, GroupOf, HasRoom, SameStore, One, CapOk;
      ghost var c, sl := ctrl[..], slots[..];
      WaitingEntry(c, sl, capacity, k, pos, h1, h2, salt, i);
      var moving := slots[i];
      var h := Full(h2(moving.key));
      var s := StartOf(h1, salt, capacity, moving.key);
      var q := FindFirstNonFull(ctrl, s, capacity, k);
      if GroupOf(q, s, capacity) == GroupOf(i, s, capacity) {
        RehashStay(c, sl, capacity, k, pos, h1, h2, salt, i, q);
        StayCounts(c, capacity, i, h);
        SetCtrlAt(ctrl, capacity, i, h);
        assert slots[..] == sl;
        next := i + 1;
      } else if ctrl[q].Empty? {
        RehashMove(c, sl, capacity, k, pos, h1, h2, salt, i, q);
        MoveCounts(c, capacity, i, q, h);
        SameStoreMove(sl, pos, sl0, pos0, i, q);
        SetCtrlAt(ctrl, capacity, q, h);
        slots[q] := moving;
        SetCtrlAt(ctrl, capacity, i, Empty);
        assert slots[..] == sl[q := sl[i]];
        pos := pos[moving.key := q];
        next := i + 1;
      } else {
        WaitingEntry(c, sl, capacity, k, pos, h1, h2, salt, q);
        RehashSwap(c, sl, capacity, k, pos, h1, h2, salt, i, q);
        StayCounts(c, capacity, q, h);
        SameStoreSwap(sl, pos, sl0, pos0, i, q);
        SetCtrlAt(ctrl, capacity, q, h);
        slots[i], slots[q] := slots[q], slots[i];
        assert slots[..] == sl[q := sl[i]][i := sl[q]];
        pos := pos[moving.key := q][sl[q].key := i];
        next := i;
      }
    }

    /** New arrays take the place of the old ones. */
    method Replace(nctrl: array<Ctrl>, nslots: array<Slot<K, V>>, newCapacity: nat, nsalt: nat, ghost newK: nat,
                   ghost npos: map<K, nat>)
      requires nctrl as object != nslots && nctrl.Length == newCapacity + 8 && size == |npos| < Growth(newCapacity)
      requires TableOk(nctrl[..], nslots[..], newCapacity, newK, npos, h1, h2, nsalt)
      requires Counted(nctrl[..], newCapacity, size, Growth(newCapacity) - size)
      modifies this
      ensures Valid() && ctrl == nctrl && slots == nslots && capacity == newCapacity && growthLeft > 0
              && Model() == Stored(nslots[..], npos)
    {
      hide TableOk, Counted, Stored, Growth;
      ctrl, slots, capacity, salt, k, pos := nctrl, nslots, newCapacity, nsalt, newK, npos;
      growthLeft := Growth(newCapacity) - size;
    }

    /** `CWISS_RawTable_Resize`. */
    method Resize(newCapacity: nat, ghost newK: nat)
      requires Valid() && Sized(newCapacity, newK) && CapOk(newCapacity) && size < Growth(newCapacity)
      modifies this
      ensures Valid() && fresh(ctrl) && fresh(slots) && capacity == newCapacity
      ensures growthLeft > 0 && Model() == old(Model())
    {
      hide TableOk, Counted, Stored, Growth, Sized, CapOk, Indexed, Count;
      OkIndexed(ctrl[..], slots[..], capacity, k, pos, h1, h2, salt);
      var nctrl, nslots, nsalt;
      ghost var npos;
      nctrl, nslots, nsalt, npos := Rebuild(ctrl[..], slots[..], capacity, pos, newCapacity, newK, h1, h2);
      Replace(nctrl, nslots, newCapacity, nsalt, newK, npos);
    }
  }

  /** New arrays of another size with the entries of the old ones. */
  method Rebuild<K(==, !new), V(!new)>(c0: seq<Ctrl>, sl0: seq<Slot<K, V>>, cap0: nat, ghost pos: map<K, nat>,
                                       cap: nat, ghost k: nat,
                                       h1: (K, nat) -> nat, h2: K -> bv7)
    returns (ctrl: array<Ctrl>, slots: array<Slot<K, V>>, salt: nat, ghost npos: map<K, nat>)
    requires |c0| == cap0 + 8 && Indexed(c0, sl0, cap0, pos, h2) && Sized(cap, k) && CapOk(cap) && |pos| < Growth(cap)
    ensures fresh(ctrl) && fresh(slots) && ctrl as object != slots && ctrl.Length == cap + 8
    ensures TableOk(ctrl[..], slots[..], cap, k, npos, h1, h2, salt)
    ensures |npos| == |pos| && Counted(ctrl[..], cap, |pos|, Growth(cap) - |pos|)
    ensures Stored(slots[..], npos) == Stored(sl0, pos)
  {
    hide TableOk, Counted, Stored, Growth, Sized, CapOk, Indexed, Refilled;
    salt := *;
    ctrl, slots := NewArrays<K, V>(cap, k, h1, h2, salt);
    RefillStart(c0, sl0, cap0, pos, ctrl[..], slots[..], cap, k, h1, h2, salt);
    npos := Refill(c0, sl0, cap0, pos, ctrl, slots, cap, k, h1, h2, salt);
    RefillEnd(c0, sl0, cap0, pos, ctrl[..], slots[..], cap, k, npos, h1, h2, salt);
  }

  /** `CWISS_RawTable_InitializeSlots`. */
  method NewArrays<K(==, !new), V(!new)>(cap: nat, ghost k: nat, h1: (K, nat) -> nat, h2: K -> bv7, salt: nat)
    returns (ctrl: array<Ctrl>, slots: array<Slot<K, V>>)
    requires Sized(cap, k) && CapOk(cap)
    ensures fresh(ctrl) && fresh(slots) && ctrl as object != slots && ctrl.Length == cap + 8
    ensures TableOk(ctrl[..], slots[..], cap, k, map[], h1, h2, salt)
    ensures Counted(ctrl[..], cap, 0, Growth(cap))
  {
    hide TableOk, Counted, Growth, Count, Sized, CapOk;
    ctrl := new Ctrl[cap + 8](x => if x == cap then Sentinel else Empty);
    slots := new Slot<K, V>[cap](_ => Vacant);
    NewOk<K, V>(ctrl[..], slots[..], cap, k, h1, h2, salt);
  }

  /** The new arrays hold exactly the entries of the old slots before `i`. */
  ghost predicate Refilled<K(!new), V(!new)>(sl0: seq<Slot<K, V>>, pos: map<K, nat>, i: nat, nc: seq<Ctrl>,
                                             nsl: seq<Slot<K, V>>,
                                             cap: nat, k: nat, npos: map<K, nat>, h1: (K, nat) -> nat, h2: K -> bv7,
                                             salt: nat) {
    && |nc| == cap + 8 && |npos| <= |pos| && |pos| < Growth(cap)
    && TableOk(nc, nsl, cap, k, npos, h1, h2, salt)
    && Counted(nc, cap, |npos|, Growth(cap) - |npos|)
    && Moved(sl0, pos, i, nsl, npos)
  }

  /** The loop of a resize: every entry of the old arrays goes into the new ones. */
  method Refill<K(==, !new), V(!new)>(c0: seq<Ctrl>, sl0: seq<Slot<K, V>>, cap: nat, ghost pos: map<K, nat>,
                                      nctrl: array<Ctrl>, nslots: array<Slot<K, V>>, newCap: nat, ghost newK: nat,
                                      h1: (K, nat) -> nat, h2: K -> bv7, salt: nat) returns (ghost npos: map<K, nat>)
    requires |c0| == cap + 8 && Indexed(c0, sl0, cap, pos, h2)
    requires nctrl as object != nslots && nctrl.Length == newCap + 8
    requires Refilled(sl0, pos, 0, nctrl[..], nslots[..], newCap, newK, map[], h1, h2, salt)
    modifies nctrl, nslots
    ensures Refilled(sl0, pos, cap, nctrl[..], nslots[..], newCap, newK, npos, h1, h2, salt)
  {
    hide Refilled, Indexed;
    npos := map[];
    var i := 0;
    while i < cap
      invariant i <= cap
      invariant Refilled(sl0, pos, i, nctrl[..], nslots[..], newCap, newK, npos, h1, h2, salt)
    {
      npos := RefillOne(c0, sl0, cap, pos, i, nctrl, nslots, newCap, newK, npos, h1, h2, salt);
      i := i + 1;
    }
  }

  method RefillOne<K(==, !new), V(!new)>(c0: seq<Ctrl>, sl0: seq<Slot<K, V>>, cap: nat, ghost pos: map<K, nat>, i: nat,
                                         nctrl: array<Ctrl>, nslots: array<Slot<K, V>>, newCap: nat, ghost newK: nat,
                                         ghost npos: map<K, nat>,
                                         h1: (K, nat) -> nat, h2: K -> bv7, salt: nat) returns (ghost rpos: map<K, nat>)
    requires |c0| == cap + 8 && Indexed(c0, sl0, cap, pos, h2) && i < cap
    requires nctrl as object != nslots && nctrl.Length == newCap + 8
    requires Refilled(sl0, pos, i, nctrl[..], nslots[..], newCap, newK, npos, h1, h2, salt)
    modifies nctrl, nslots
    ensures Refilled(sl0, pos, i + 1, nctrl[..], nslots[..], newCap, newK, rpos, h1, h2, salt)
  {
    hide TableOk, Counted, Growth, Indexed, Moved, Shaped, Sized, Findable, CapOk, Refilled;
    SameLength(c0, sl0, cap, pos, h2);
    rpos := npos;
    ghost var nsl := nslots[..];
    RefillFacts(c0, sl0, cap, pos, i, nctrl[..], nsl, newCap, newK, npos, h1, h2, salt);
    if c0[i].Full? {
      ghost var q := Reinsert(nctrl, nslots, newCap, newK, npos, h1, h2, salt, sl0[i].key, sl0[i].val);
      RefillNext(c0, sl0, cap, pos, i, nctrl[..], nsl, nslots[..], newCap, newK, npos, h1, h2, salt, q);
      rpos := npos[sl0[i].key := q];
    }
  }

  lemma RefillFacts<K(!new), V(!new)>(c0: seq<Ctrl>, sl0: seq<Slot<K, V>>, cap0: nat, pos: map<K, nat>, i: nat,
                                      nc: seq<Ctrl>, nsl: seq<Slot<K, V>>,
                                      cap: nat, k: nat, npos: map<K, nat>, h1: (K, nat) -> nat, h2: K -> bv7, salt: nat)
    requires |c0| == cap0 + 8 && Indexed(c0, sl0, cap0, pos, h2) && i < cap0 && |sl0| == cap0
    requires Refilled(sl0, pos, i, nc, nsl, cap, k, npos, h1, h2, salt)
    ensures !c0[i].Full? ==> Refilled(sl0, pos, i + 1, nc, nsl, cap, k, npos, h1, h2, salt)
    ensures c0[i].Full? ==> && sl0[i].Entry? && sl0[i].key !in npos && |npos| < |pos| && |pos| < Growth(cap)
                            && |nc| == cap + 8 && TableOk(nc, nsl, cap, k, npos, h1, h2, salt)
                            && Counted(nc, cap, |npos|, Growth(cap) - |npos|)
  {
    hide TableOk, Counted, Growth, Indexed, Moved;
    MovedStep(c0, sl0, cap0, pos, h2, i, nsl, npos);
  }

  lemma RefillNext<K(!new), V(!new)>(c0: seq<Ctrl>, sl0: seq<Slot<K, V>>, cap0: nat, pos: map<K, nat>, i: nat,
                                     nc: seq<Ctrl>, nsl: seq<Slot<K, V>>,
                                     after: seq<Slot<K, V>>, cap: nat, k: nat, npos: map<K, nat>, h1: (K, nat) -> nat,
                                     h2: K -> bv7, salt: nat, q: nat)
    requires |c0| == cap0 + 8 && Indexed(c0, sl0, cap0, pos, h2) && i < cap0 && |sl0| == cap0 && c0[i].Full?
             && sl0[i].Entry?
    requires exists before :: Refilled(sl0, pos, i, before, nsl, cap, k, npos, h1, h2, salt)
    requires q < |nsl| && after == nsl[q := Entry(sl0[i].key, sl0[i].val)] && (forall x :: x in npos ==> npos[x] != q)
    requires |npos| < |pos| && |npos[sl0[i].key := q]| == |npos| + 1 && |nc| == cap + 8 && |pos| < Growth(cap)
    requires TableOk(nc, after, cap, k, npos[sl0[i].key := q], h1, h2, salt)
             && Counted(nc, cap, |npos| + 1, Growth(cap) - |npos| - 1)
    ensures Refilled(sl0, pos, i + 1, nc, after, cap, k, npos[sl0[i].key := q], h1, h2, salt)
  {
    hide TableOk, Counted, Growth, Indexed, Moved;
    MovedInsert(c0, sl0, cap0, pos, h2, i, nsl, npos, q);
    assert Entry(sl0[i].key, sl0[i].val) == sl0[i];
  }

  lemma RefillStart<K(!new), V(!new)>(c0: seq<Ctrl>, sl0: seq<Slot<K, V>>, cap0: nat, pos: map<K, nat>, nc: seq<Ctrl>,
                                      nsl: seq<Slot<K, V>>,
                                      cap: nat, k: nat, h1: (K, nat) -> nat, h2: K -> bv7, salt: nat)
    requires |c0| == cap0 + 8 && Indexed(c0, sl0, cap0, pos, h2)
    requires |nc| == cap + 8 && TableOk(nc, nsl, cap, k, map[], h1, h2, salt)
    requires Counted(nc, cap, 0, Growth(cap)) && |pos| < Growth(cap)
    ensures Refilled(sl0, pos, 0, nc, nsl, cap, k, map[], h1, h2, salt)
  {
    hide TableOk, Counted, Growth;
    MovedNone(sl0, pos, nsl);
  }

  lemma RefillEnd<K(!new), V(!new)>(c0: seq<Ctrl>, sl0: seq<Slot<K, V>>, cap0: nat, pos: map<K, nat>, nc: seq<Ctrl>,
                                    nsl: seq<Slot<K, V>>,
                                    cap: nat, k: nat, npos: map<K, nat>, h1: (K, nat) -> nat, h2: K -> bv7, salt: nat)
    requires |c0| == cap0 + 8 && Indexed(c0, sl0, cap0, pos, h2)
    requires Refilled(sl0, pos, cap0, nc, nsl, cap, k, npos, h1, h2, salt)
    ensures |nc| == cap + 8 && TableOk(nc, nsl, cap, k, npos, h1, h2, salt)
    ensures |npos| == |pos| && |pos| < Growth(cap) && Counted(nc, cap, |pos|, Growth(cap) - |pos|)
    ensures Stored(nsl, npos) == Stored(sl0, pos)
  {
    hide TableOk, Counted, Growth, Moved, Stored, Indexed;
    MovedAll(c0, sl0, cap0, pos, h2, nsl, npos);
  }

  lemma SameLength<K(!new), V(!new)>(c: seq<Ctrl>, sl: seq<Slot<K, V>>, cap: nat, pos: map<K, nat>, h2: K -> bv7)
    requires |c| == cap + 8 && Indexed(c, sl, cap, pos, h2)
    ensures |sl| == cap
  {
  }

  lemma RoomAt(c: seq<Ctrl>, cap: nat, q: nat)
    requires |c| == cap + 8 && Shaped(c, cap) && q <= cap && c[q] == Deleted
    ensures HasRoom(c, cap)
  {
    assert Room(c[q]);
  }

  lemma SizeBound(c: seq<Ctrl>, cap: nat, size: nat, growthLeft: nat)
    requires |c| == cap + 8 && Shaped(c, cap) && Counted(c, cap, size, growthLeft)
    ensures size <= cap
    ensures size < Growth(2 * cap + 1)
    ensures size * 32 <= cap * 25 && cap > WIDTH ==> size < Growth(cap)
  {
    assert size <= cap by {
      hide Growth;
      CountTotal(c[..cap]);
    }
  }

  lemma InsertOk<K(!new), V(!new)>(c: seq<Ctrl>, sl: seq<Slot<K, V>>, cap: nat, k: nat, pos: map<K, nat>,
                                   h1: (K, nat) -> nat, h2: K -> bv7, salt: nat, q: nat, key: K, val: V, size: nat,
                                   growthLeft: nat)
    requires TableOk(c, sl, cap, k, pos, h1, h2, salt) && key !in pos && |c| == cap + 8
    requires Counted(c, cap, size, growthLeft) && size == |pos|
    requires q < cap && Room(c[q]) && FirstRoom(c, cap, k, StartOf(h1, salt, cap, key), q)
    requires c[q] == Empty ==> growthLeft > 0
    ensures CapOk(cap) && |sl| == cap && growthLeft >= One(c[q] == Empty)
    ensures var c' := SetCtrl(c, cap, q, Full(h2(key)));
            && |pos[key := q]| == size + 1
            && TableOk(c', sl[q := Entry(key, val)], cap, k, pos[key := q], h1, h2, salt)
            && Counted(c', cap, size + 1, growthLeft - One(c[q] == Empty))
    ensures Stored(sl[q := Entry(key, val)], pos[key := q]) == Stored(sl, pos)[key := val]
  {
    hide TableOk, Counted, Shaped, Indexed, Sized, SetCtrl, FirstRoom, StartOf, Stored, CapOk;
    OkFacts(c, sl, cap, k, pos, h1, h2, salt);
    assert pos[key := q].Keys == pos.Keys + {key};
    OkInsert(c, sl, cap, k, pos, h1, h2, salt, q, key, val);
    OkFacts(SetCtrl(c, cap, q, Full(h2(key))), sl[q := Entry(key, val)], cap, k, pos[key := q], h1, h2, salt);
    CountedInsert(c, cap, size, growthLeft, q, Full(h2(key)));
  }

  lemma OkAt<K(!new), V(!new)>(c: seq<Ctrl>, sl: seq<Slot<K, V>>, cap: nat, k: nat, pos: map<K, nat>,
                               h1: (K, nat) -> nat, h2: K -> bv7, salt: nat, key: K)
    requires TableOk(c, sl, cap, k, pos, h1, h2, salt) && key in pos
    ensures |c| == cap + 8 && CapOk(cap) && pos[key] < cap
  {
  }

  lemma EraseOk<K(!new), V(!new)>(c: seq<Ctrl>, sl: seq<Slot<K, V>>, cap: nat, k: nat, pos: map<K, nat>,
                                  h1: (K, nat) -> nat, h2: K -> bv7, salt: nat, key: K, h: Ctrl, a: nat, b: nat,
                                  size: nat, growthLeft: nat)
    requires TableOk(c, sl, cap, k, pos, h1, h2, salt) && |c| == cap + 8 && CapOk(cap)
    requires Counted(c, cap, size, growthLeft) && size == |pos| && key in pos && pos[key] < cap
    requires h == Deleted || (h == Empty && a < 8 && b < 8 && NeverFull(c, cap, pos[key], a, b))
    ensures var c' := SetCtrl(c, cap, pos[key], h);
            && size > 0 && |pos - {key}| == size - 1
            && TableOk(c', sl, cap, k, pos - {key}, h1, h2, salt)
            && Counted(c', cap, size - 1, growthLeft + One(h == Empty))
    ensures Stored(sl, pos - {key}) == Stored(sl, pos) - {key}
  {
    hide TableOk, Counted, Shaped, SetCtrl, NeverFull, Stored, One;
    OkFacts(c, sl, cap, k, pos, h1, h2, salt);
    SizePositive(pos, key);
    OkErase(c, sl, cap, k, pos, h1, h2, salt, key, h, a, b);
    CountedErase(c, cap, size, growthLeft, pos[key], h);
  }

  /** How many consecutive non-empty bytes lie around the slot: fewer than eight
      means no probe window was ever full. */
  method WasNeverFull(ctrl: array<Ctrl>, index: nat, cap: nat) returns (yes: bool, ghost a: nat, ghost b: nat)
    requires ctrl.Length == cap + 8 && index < cap
    ensures yes ==> a < 8 && b < 8 && NeverFull(ctrl[..], cap, index, a, b)
    ensures yes <==> Gaps(ctrl[..], cap, index, a, b) && a <= b
    ensures Gaps(ctrl[..], cap, index, a, b) || NoEmpty(ctrl[..], index) || NoEmpty(ctrl[..], Before(index, cap))
  {
    hide Load, MatchEmpty, Lowest, Highest, LeadingLanes, NoEmpty, IsMask, Before;
    a, b := 0, 0;
    ghost var c := ctrl[..];
    var before := Before(index, cap);
    EmptyMask(c, index);
    EmptyMask(c, before);
    assert ctrl[index..index + 8] == c[index..index + 8];
    assert ctrl[before..before + 8] == c[before..before + 8];
    var emptyAfter := MatchEmpty(Load(ctrl[index..index + 8]));
    var emptyBefore := MatchEmpty(Load(ctrl[before..before + 8]));
    if emptyBefore != 0 && emptyAfter != 0 {
      a, b := Lowest(emptyAfter), Highest(emptyBefore);
      return Lowest(emptyAfter) + LeadingLanes(emptyBefore) < WIDTH, a, b;
    }
    a, b := 8, 8;
    return false, a, b;
  }

  /** The nearest empty bytes: `a` places after the slot, and `8 - b` places before. */
  ghost predicate Gaps(c: seq<Ctrl>, cap: nat, q: nat, a: nat, b: nat)
    requires |c| == cap + 8 && q < cap
  {
    && a < 8 && c[q + a] == Empty && (forall x :: q <= x < q + a ==> c[x] != Empty)
    && b < 8 && c[Before(q, cap) + b] == Empty
    && (forall x :: Before(q, cap) + b < x < Before(q, cap) + 8 ==> c[x] != Empty)
  }

  lemma StoredKeys<K, V>(sl: seq<Slot<K, V>>, pos: map<K, nat>)
    requires forall x :: x in pos ==> pos[x] < |sl| && sl[pos[x]].Entry?
    ensures Stored(sl, pos).Keys == pos.Keys
    ensures forall x :: x in pos ==> Stored(sl, pos)[x] == sl[pos[x]].val
  {
  }

  lemma SizePositive<K>(pos: map<K, nat>, key: K)
    requires key in pos
    ensures |pos| > 0 && |pos - {key}| == |pos| - 1
  {
    assert (pos - {key}).Keys == pos.Keys - {key};
  }

  // --- bookkeeping of the two rehashes ---

  /** Every key keeps its entry, wherever that sits. */
  ghost predicate SameStore<K(!new), V(!new)>(sl: seq<Slot<K, V>>, pos: map<K, nat>, sl0: seq<Slot<K, V>>,
                                              pos0: map<K, nat>) {
    && pos.Keys == pos0.Keys
    && forall x :: x in pos ==> pos[x] < |sl| && pos0[x] < |sl0| && sl0[pos0[x]].Entry? && sl[pos[x]] == sl0[pos0[x]]
                                && sl[pos[x]].key == x
  }

  lemma SameStoreStart<K(!new), V(!new)>(sl: seq<Slot<K, V>>, pos: map<K, nat>)
    requires forall x :: x in pos ==> pos[x] < |sl| && sl[pos[x]].Entry? && sl[pos[x]].key == x
    ensures SameStore(sl, pos, sl, pos)
  {
  }

  lemma SameStoreMove<K(!new), V(!new)>(sl: seq<Slot<K, V>>, pos: map<K, nat>, sl0: seq<Slot<K, V>>,
                                        pos0: map<K, nat>, i: nat, q: nat)
    requires SameStore(sl, pos, sl0, pos0) && i < |sl| && q < |sl| && sl[i].Entry? && sl[i].key in pos
             && pos[sl[i].key] == i
    requires forall x :: x in pos ==> pos[x] != q
    ensures SameStore(sl[q := sl[i]], pos[sl[i].key := q], sl0, pos0)
  {
  }

  lemma SameStoreSwap<K(!new), V(!new)>(sl: seq<Slot<K, V>>, pos: map<K, nat>, sl0: seq<Slot<K, V>>,
                                        pos0: map<K, nat>, i: nat, q: nat)
    requires SameStore(sl, pos, sl0, pos0) && i < |sl| && q < |sl| && i != q
    requires sl[i].Entry? && sl[i].key in pos && pos[sl[i].key] == i && sl[q].Entry? && sl[q].key in pos
             && pos[sl[q].key] == q
    ensures SameStore(sl[q := sl[i]][i := sl[q]], pos[sl[i].key := q][sl[q].key := i], sl0, pos0)
  {
  }

  lemma SameStoreDone<K(!new), V(!new)>(sl: seq<Slot<K, V>>, pos: map<K, nat>, sl0: seq<Slot<K, V>>, pos0: map<K, nat>)
    requires SameStore(sl, pos, sl0, pos0)
    ensures |pos| == |pos0| && Stored(sl, pos) == Stored(sl0, pos0)
  {
    assert |pos.Keys| == |pos0.Keys|;
  }

  lemma WaitingEntry<K(!new), V(!new)>(c: seq<Ctrl>, sl: seq<Slot<K, V>>, cap: nat, k: nat, pos: map<K, nat>,
                                       h1: (K, nat) -> nat, h2: K -> bv7, salt: nat, i: nat)
    requires |c| == cap + 8 && exists j :: Rehashing(c, sl, cap, k, pos, h1, h2, salt, j)
    requires i < cap && c[i] == Deleted
    ensures |sl| == cap && sl[i].Entry? && sl[i].key in pos && pos[sl[i].key] == i && Shaped(c, cap)
            && HasRoom(c, cap) && CapOk(cap)
    ensures forall x :: x in pos ==> pos[x] < cap && c[pos[x]] != Empty
  {
    hide FirstRoom;
    var j :| Rehashing(c, sl, cap, k, pos, h1, h2, salt, j);
    assert Room(c[i]);
    forall x | x in pos
      ensures pos[x] < cap && c[pos[x]] != Empty
    {
      assert PlacedOrWaiting(c, sl, cap, k, pos, h1, h2, salt, j, x);
    }
  }

  lemma StayCounts(c: seq<Ctrl>, cap: nat, i: nat, h: Ctrl)
    requires CapOk(cap) && |c| == cap + 8 && i < cap && c[i] == Deleted && h.Full?
    ensures Count(SetCtrl(c, cap, i, h)[..cap], KEmpty) == Count(c[..cap], KEmpty)
    ensures Count(SetCtrl(c, cap, i, h)[..cap], KDeleted) < Count(c[..cap], KDeleted)
  {
    hide Count, SetCtrl;
    SetCtrlCount(c, cap, i, h, KEmpty);
    SetCtrlCount(c, cap, i, h, KDeleted);
  }

  lemma MoveCounts(c: seq<Ctrl>, cap: nat, i: nat, q: nat, h: Ctrl)
    requires Shaped(c, cap) && i < cap && q < cap && c[i] == Deleted && c[q] == Empty && h.Full?
    ensures var d := SetCtrl(SetCtrl(c, cap, q, h), cap, i, Empty);
            && Count(d[..cap], KEmpty) == Count(c[..cap], KEmpty)
            && Count(d[..cap], KDeleted) < Count(c[..cap], KDeleted)
  {
    hide Count, SetCtrl;
    SetCtrlShaped(c, cap, q, h);
    SetCtrlCount(c, cap, q, h, KEmpty);
    SetCtrlCount(c, cap, q, h, KDeleted);
    SetCtrlCount(SetCtrl(c, cap, q, h), cap, i, Empty, KEmpty);
    SetCtrlCount(SetCtrl(c, cap, q, h), cap, i, Empty, KDeleted);
  }

  lemma ConvertedCounts(c: seq<Ctrl>, d: seq<Ctrl>, cap: nat, size: nat, growthLeft: nat)
    requires Shaped(d, cap) && |c| == |d| && |c| == cap + 8 && Counted(c, cap, size, growthLeft)
    requires forall q :: 0 <= q < cap ==> d[q] == Converted(c[q])
    ensures Count(d[..cap], KEmpty) + size == cap
  {
    hide Growth;
    CountConverted(c[..cap], d[..cap]);
    CountTotal(d[..cap]);
  }

  lemma {:induction false} CountNone(s: seq<Ctrl>)
    requires forall i :: 0 <= i < |s| ==> s[i] != Deleted
    ensures Count(s, KDeleted) == 0
  {
    if s != [] {
      CountNone(s[..|s| - 1]);
      assert s[|s| - 1] != Deleted;
    }
  }

  lemma RehashCounts(c: seq<Ctrl>, cap: nat, size: nat, growthLeft: nat)
    requires Shaped(c, cap) && Count(c[..cap], KEmpty) + size == cap && growthLeft + size == Growth(cap)
    requires forall q :: 0 <= q < cap ==> c[q] != Deleted
    ensures |c| == cap + 8 && Counted(c, cap, size, growthLeft)
  {
    hide Growth;
    CountNone(c[..cap]);
    CountTotal(c[..cap]);
  }

  lemma DoneOk<K(!new), V(!new)>(c: seq<Ctrl>, sl: seq<Slot<K, V>>, cap: nat, k: nat, pos: map<K, nat>,
                                 h1: (K, nat) -> nat, h2: K -> bv7, salt: nat)
    requires Rehashing(c, sl, cap, k, pos, h1, h2, salt, cap) && Sized(cap, k) && |c| == cap + 8
    ensures TableOk(c, sl, cap, k, pos, h1, h2, salt)
  {
    hide Findable, Indexed, Sized;
    RehashDone(c, sl, cap, k, pos, h1, h2, salt);
  }

  /** The keys in the old slots before `i` are in the new table, with their entries. */
  ghost predicate Moved<K(!new), V(!new)>(sl: seq<Slot<K, V>>, pos: map<K, nat>, i: nat, nsl: seq<Slot<K, V>>,
                                          npos: map<K, nat>) {
    && npos.Keys <= pos.Keys
    && (forall x :: x in pos ==> pos[x] < |sl| && sl[pos[x]].Entry? && (x in npos <==> pos[x] < i))
    && (forall x :: x in npos ==> npos[x] < |nsl| && nsl[npos[x]] == sl[pos[x]])
  }

  lemma MovedNone<K(!new), V(!new)>(sl: seq<Slot<K, V>>, pos: map<K, nat>, nsl: seq<Slot<K, V>>)
    requires forall x :: x in pos ==> pos[x] < |sl| && sl[pos[x]].Entry?
    ensures Moved(sl, pos, 0, nsl, map[])
  {
  }

  lemma MovedStep<K(!new), V(!new)>(c: seq<Ctrl>, sl: seq<Slot<K, V>>, cap: nat, pos: map<K, nat>, h2: K -> bv7,
                                    i: nat, nsl: seq<Slot<K, V>>, npos: map<K, nat>)
    requires |c| == cap + 8 && Indexed(c, sl, cap, pos, h2) && i < cap && Moved(sl, pos, i, nsl, npos)
    ensures !c[i].Full? ==> Moved(sl, pos, i + 1, nsl, npos)
    ensures c[i].Full? ==> sl[i].Entry? && sl[i].key in pos && pos[sl[i].key] == i && sl[i].key !in npos
                           && |npos| < |pos|
  {
    if c[i].Full? {
      assert sl[i].key !in npos;
      FewerKeys(npos, pos, sl[i].key);
    }
  }

  lemma MovedInsert<K(!new), V(!new)>(c: seq<Ctrl>, sl: seq<Slot<K, V>>, cap: nat, pos: map<K, nat>, h2: K -> bv7,
                                      i: nat, nsl: seq<Slot<K, V>>, npos: map<K, nat>, q: nat)
    requires |c| == cap + 8 && Indexed(c, sl, cap, pos, h2) && i < cap && Moved(sl, pos, i, nsl, npos) && c[i].Full?
    requires sl[i].Entry? && q < |nsl| && forall x :: x in npos ==> npos[x] != q
    ensures Moved(sl, pos, i + 1, nsl[q := sl[i]], npos[sl[i].key := q])
  {
  }

  lemma MovedAll<K(!new), V(!new)>(c: seq<Ctrl>, sl: seq<Slot<K, V>>, cap: nat, pos: map<K, nat>, h2: K -> bv7,
                                   nsl: seq<Slot<K, V>>, npos: map<K, nat>)
    requires |c| == cap + 8 && Indexed(c, sl, cap, pos, h2) && Moved(sl, pos, cap, nsl, npos)
    ensures |npos| == |pos| && Stored(nsl, npos) == Stored(sl, pos)
  {
    assert npos.Keys == pos.Keys;
    assert |npos.Keys| == |pos.Keys|;
  }

  lemma NewOk<K(!new), V(!new)>(c: seq<Ctrl>, sl: seq<Slot<K, V>>, cap: nat, k: nat, h1: (K, nat) -> nat,
                                h2: K -> bv7, salt: nat)
    requires CapOk(cap) && Sized(cap, k) && |c| == cap + 8 && |sl| == cap
    requires forall x :: 0 <= x < cap + 8 ==> c[x] == if x == cap then Sentinel else Empty
    ensures TableOk(c, sl, cap, k, map[], h1, h2, salt) && Counted(c, cap, 0, Growth(cap))
  {
    hide TableOk, Counted, Growth, Count, Sized, CapOk;
    OkEmpty<K, V>(c, sl, cap, k, h1, h2, salt);
    EmptyCounted(c, cap);
  }

  lemma EmptyCounted(c: seq<Ctrl>, cap: nat)
    requires |c| == cap + 8 && Count(c[..cap], KFull) == 0 && Count(c[..cap], KEmpty) == cap
    ensures Counted(c, cap, 0, Growth(cap))
  {
  }

  /** A table that only ever grew has no deleted bytes. */
  lemma NoDeletedYet(c: seq<Ctrl>, cap: nat, size: nat, growthLeft: nat, q: nat)
    requires Shaped(c, cap) && |c| == cap + 8 && Counted(c, cap, size, growthLeft) && growthLeft + size == Growth(cap)
             && q < cap && Room(c[q])
    ensures c[q] == Empty
  {
    hide Growth;
    CountTotal(c[..cap]);
    DeletedCounts(c[..cap], q);
  }

  lemma {:induction false} DeletedCounts(s: seq<Ctrl>, q: nat)
    requires q < |s| && Count(s, KDeleted) == 0
    ensures s[q] != Deleted
  {
    if q < |s| - 1 {
      DeletedCounts(s[..|s| - 1], q);
    }
  }
}
