/**
 src/heap.c: what merging achieves. Unless more memory has been mapped at once than one
 block can span, no two linked neighbours are both free.
 */
module HeapTight {
  import opened Collections
  import opened HeapSpec
  import opened HeapBlocks
  import opened HeapSound
  import opened HeapSteps

  ghost predicate BothFree(bs: Blocks, a: int)
    requires a in bs
  {
    bs[a].free && bs[a].hasNext && a + bs[a].size in bs && bs[a + bs[a].size].free
  }

  /** No two linked neighbours are both free, pairs with the block at `x` aside. */
  ghost predicate Quiet(bs: Blocks, x: int) {
    forall a {:trigger BothFree(bs, a)} :: a in bs && a != x && a + bs[a].size != x ==> !BothFree(bs, a)
  }

  ghost predicate NextUsed(bs: Blocks, a: int) {
    a in bs && (bs[a].hasNext ==> a + bs[a].size in bs && !bs[a + bs[a].size].free)
  }

  ghost predicate PrevUsed(bs: Blocks, a: int) {
    a in bs && (bs[a].prev != 0 ==> bs[a].prev in bs && !bs[bs[a].prev].free)
  }

  lemma QuietAll(m: Memory, bs: Blocks, a: int)
    requires Ground(m, bs) && Quiet(bs, a) && a in bs && (!bs[a].free || (NextUsed(bs, a) && PrevUsed(bs, a)))
    ensures Quiet(bs, 0)
  {
    hide Ground;
    forall c | c in bs && c + bs[c].size != 0
      ensures !BothFree(bs, c)
    {
      if bs[c].hasNext && c + bs[c].size == a {
        Positive(m, bs, c);
      } else {
        assert !BothFree(bs, c);
      }
    }
  }

  lemma QuietOne(m: Memory, bs: Blocks, a: int)
    requires Ground(m, bs) && Quiet(bs, 0) && a in bs
    ensures Quiet(bs, a) && (bs[a].free ==> NextUsed(bs, a) && PrevUsed(bs, a))
  {
    hide Ground;
    forall c | c in bs
      ensures c > 0 && bs[c].size > 0 && Neighbours(bs, c) && !BothFree(bs, c)
    {
      Positive(m, bs, c);
    }
  }

  /** Lists and the block at `a` aside, nothing changes. */
  lemma QuietKin(bs: Blocks, cs: Blocks, a: int)
    requires Quiet(bs, a) && Kin(bs, cs, a)
    ensures Quiet(cs, a)
  {
    forall c | c in cs && c != a && c + cs[c].size != a
      ensures !BothFree(cs, c)
    {
      assert !BothFree(bs, c);
    }
  }

  lemma QuietMarked(bs: Blocks, a: int, v: bool)
    requires Quiet(bs, a) && a in bs
    ensures Quiet(bs[a := Marked(bs[a], v)], a)
    ensures bs[a].size > 0 && NextUsed(bs, a) ==> NextUsed(bs[a := Marked(bs[a], v)], a)
  {
    var cs := bs[a := Marked(bs[a], v)];
    forall c | c in cs && c != a && c + cs[c].size != a
      ensures !BothFree(cs, c)
    {
      assert !BothFree(bs, c);
    }
  }

  /** A cut makes a free block whose right neighbour is the old one. */
  lemma QuietSplit(m: Memory, bs: Blocks, p: Memory, cs: Blocks, a: int, n: int)
    requires a in bs && Quiet(bs, a) && NextUsed(bs, a) && SplitDone(m, bs, p, cs, a, bs[a].size, n) && Ground(m, bs)
    requires 0 < n <= bs[a].size
    ensures Quiet(cs, a)
  {
    hide Ground, Same;
    if bs[a].size - n >= MIN_SIZE {
      forall c | c in cs && c != a && c + cs[c].size != a
        ensures !BothFree(cs, c)
      {
        if c != a + n {
          Positive(m, bs, c);
          assert !BothFree(bs, c);
        }
      }
    }
  }

  // --- merging ---

  ghost predicate MergesLeft(bs: Blocks, a: int) {
    && a in bs && bs[a].prev != 0 && bs[a].prev in bs && bs[bs[a].prev].free
    && bs[bs[a].prev].size + bs[a].size <= INT_MAX
  }

  ghost predicate MergesRight(bs: Blocks, a: int) {
    && a in bs && bs[a].hasNext && a + bs[a].size in bs && bs[a + bs[a].size].free
    && bs[a].size + bs[a + bs[a].size].size <= INT_MAX
  }

  /** The neighbours of a block and the block itself fit into the mapped words. */
  lemma PairFits(m: Memory, bs: Blocks, a: int)
    requires Ground(m, bs) && a in bs && bs[a].hasNext
    ensures a + bs[a].size in bs && bs[a].size + bs[a + bs[a].size].size <= 8 * |m.Keys|
  {
    hide Ground;
    Positive(m, bs, a);
    var b := a + bs[a].size;
    Positive(m, bs, b);
    var k := (bs[a].size + bs[b].size) / 8;
    RangeCard(a, k);
    forall w | w in Range(a, k)
      ensures w in m
    {
      RangeMember(a, k, w);
      assert w < b ==> Mapped(m, a, b);
      assert w >= b ==> Mapped(m, b, b + bs[b].size);
    }
    SubsetCard(Range(a, k), m.Keys);
  }

  /** `k` aligned words from `a` on. */
  ghost function Range(a: int, k: nat): set<int> {
    if k == 0 then {} else Range(a, k - 1) + {a + 8 * (k - 1)}
  }

  lemma {:induction false} RangeMember(a: int, k: nat, w: int)
    ensures w in Range(a, k) <==> a <= w < a + 8 * k && (w - a) % 8 == 0
  {
    if k > 0 {
      RangeMember(a, k - 1, w);
      assert a + 8 * (k - 1) <= w < a + 8 * k && (w - a) % 8 == 0 ==> w - a == 8 * ((w - a) / 8);
    }
  }

  lemma {:induction false} RangeCard(a: int, k: nat)
    ensures |Range(a, k)| == k
  {
    if k > 0 {
      RangeCard(a, k - 1);
      RangeMember(a, k - 1, a + 8 * (k - 1));
    }
  }

  ghost predicate LeftDone(m: Memory, bs: Blocks, n: Memory, cs: Blocks, a: int, merged: int) {
    if MergesLeft(bs, a) then merged == bs[a].prev && FuseDone(m, bs, n, cs, merged)
    else merged == a && n == m && cs == bs
  }

  ghost predicate RightDone(m: Memory, bs: Blocks, n: Memory, cs: Blocks, h: int) {
    if MergesRight(bs, h) then FuseDone(m, bs, n, cs, h) else n == m && cs == bs
  }

  /** What becomes of the free block at `a`: it is one block with each free neighbour that
      leaves the sum within bounds, the left one first, and no other block changes its extent. */
  ghost predicate Coalesced(bs: Blocks, cs: Blocks, a: int, merged: int)
    requires a in bs
  {
    var left, next := MergesLeft(bs, a), a + bs[a].size;
    var size := bs[a].size + if left then bs[bs[a].prev].size else 0;
    var right := bs[a].hasNext && next in bs && bs[next].free && size + bs[next].size <= INT_MAX;
    && merged == (if left then bs[a].prev else a) && merged in cs && cs[merged].free
    && cs[merged].size == size + (if right then bs[next].size else 0)
    && cs.Keys == bs.Keys - (if left then {a} else {}) - (if right then {next} else {})
    && forall c :: c in cs && c != merged ==> Alike(bs, cs, c)
  }

  /** A merge that would pass the bound of one block is refused, and then two neighbours are both free. */
  lemma RefusedPair(m: Memory, bs: Blocks, cs: Blocks, a: int, merged: int)
    requires a in bs && bs[a].prev != 0 && bs[a].prev in bs && bs[bs[a].prev].free
    requires bs[bs[a].prev].size + bs[a].size > INT_MAX && Coalesced(bs, cs, a, merged) && Ground(m, bs)
    ensures bs[a].prev in cs && BothFree(cs, bs[a].prev)
  {
    hide Ground;
    var p := bs[a].prev;
    Positive(m, bs, a);
    Positive(m, bs, p);
    assert Alike(bs, cs, p);
  }

  lemma CoalescedBoth(m0: Memory, bs0: Blocks, m1: Memory, bs1: Blocks, m2: Memory, bs2: Blocks, a: int, h: int)
    requires Ground(m0, bs0) && a in bs0 && bs0[a].free
    requires LeftDone(m0, bs0, m1, bs1, a, h) && RightDone(m1, bs1, m2, bs2, h)
    ensures Coalesced(bs0, bs2, a, h)
  {
    hide Ground, Undisturbed, Same;
    Positive(m0, bs0, a);
    var next := a + bs0[a].size;
    if MergesLeft(bs0, a) {
      Positive(m0, bs0, bs0[a].prev);
      assert next in bs0 ==> Alike(bs0, bs1, next) || next !in bs1;
    }
    forall c | c in bs2 && c != h
      ensures Alike(bs0, bs2, c)
    {
      assert Alike(bs1, bs2, c) || bs2 == bs1;
      assert Alike(bs0, bs1, c) || bs1 == bs0;
    }
  }

  lemma LeftQuiet(m: Memory, bs: Blocks, n: Memory, cs: Blocks, a: int, h: int)
    requires Ground(m, bs) && a in bs && bs[a].free && Quiet(bs, a) && LeftDone(m, bs, n, cs, a, h)
             && 8 * |m.Keys| <= INT_MAX
    ensures Quiet(cs, h) && PrevUsed(cs, h) && cs[h].free
  {
    hide Ground, Quiet, Undisturbed, Same;
    Positive(m, bs, a);
    if bs[a].prev != 0 {
      PairFits(m, bs, bs[a].prev);
      if MergesLeft(bs, a) {
        QuietLeft(m, bs, n, cs, h, a);
      }
    }
  }

  lemma RightQuiet(m: Memory, bs: Blocks, n: Memory, cs: Blocks, h: int)
    requires Ground(m, bs) && Quiet(bs, h) && PrevUsed(bs, h) && RightDone(m, bs, n, cs, h) && 8 * |m.Keys| <= INT_MAX
    ensures Quiet(cs, h) && PrevUsed(cs, h) && NextUsed(cs, h)
  {
    hide Ground, Quiet, Undisturbed, Same;
    if bs[h].hasNext {
      PairFits(m, bs, h);
      if MergesRight(bs, h) {
        QuietRight(m, bs, n, cs, h);
      }
    }
  }

  lemma CoalesceKeeps(m0: Memory, bs0: Blocks, m1: Memory, bs1: Blocks, m2: Memory, bs2: Blocks, m: Memory,
                      bs: Blocks, a: int, h: int)
    requires Ground(m0, bs0) && Ground(m1, bs1) && Ground(m, bs) && a in bs0 && bs0[a].free && m1.Keys == m0.Keys
    requires LeftDone(m0, bs0, m1, bs1, a, h) && RightDone(m1, bs1, m2, bs2, h)
    requires Coalesced(bs0, bs2, a, h) && bs == bs2[h := Marked(bs2[h], true)]
    ensures Coalesced(bs0, bs, a, h)
    ensures Quiet(bs0, a) && 8 * |m0.Keys| <= INT_MAX ==> Quiet(bs, 0)
  {
    hide Ground, Quiet, LeftDone, RightDone;
    forall c | c in bs && c != h
      ensures Alike(bs0, bs, c)
    {
      assert Alike(bs0, bs2, c);
    }
    if Quiet(bs0, a) && 8 * |m0.Keys| <= INT_MAX {
      LeftQuiet(m0, bs0, m1, bs1, a, h);
      RightQuiet(m1, bs1, m2, bs2, h);
      QuietMarked(bs2, h, true);
      Positive(m, bs, h);
      QuietAll(m, bs, h);
    }
  }

  lemma QuietLeft(m: Memory, bs: Blocks, n: Memory, cs: Blocks, h: int, a: int)
    requires Ground(m, bs) && Quiet(bs, a) && FuseDone(m, bs, n, cs, h) && a == h + bs[h].size && bs[h].hasNext
             && bs[h].free
    ensures Quiet(cs, h) && PrevUsed(cs, h)
  {
    hide Ground, Undisturbed, Same;
    Positive(m, bs, h);
    forall c | c in cs && c != h && c + cs[c].size != h
      ensures !BothFree(cs, c)
    {
      Positive(m, bs, c);
      assert c + bs[c].size != a ==> !BothFree(bs, c);
    }
    var p := bs[h].prev;
    if p != 0 {
      Positive(m, bs, p);
      assert !BothFree(bs, p);
    }
  }

  lemma QuietRight(m: Memory, bs: Blocks, n: Memory, cs: Blocks, h: int)
    requires Ground(m, bs) && Quiet(bs, h) && PrevUsed(bs, h) && FuseDone(m, bs, n, cs, h) && bs[h].hasNext
             && bs[h + bs[h].size].free
    ensures Quiet(cs, h) && PrevUsed(cs, h) && NextUsed(cs, h)
  {
    hide Ground, Undisturbed, Same;
    var next := h + bs[h].size;
    Positive(m, bs, h);
    Positive(m, bs, next);
    forall c | c in cs && c != h && c + cs[c].size != h
      ensures !BothFree(cs, c)
    {
      Positive(m, bs, c);
      assert !BothFree(bs, c);
    }
    assert !BothFree(bs, next);
    assert bs[h].prev != 0 ==> bs[h].prev != next;
  }

  // --- regions ---

  lemma QuietUnmap(m: Memory, bs: Blocks, a: int)
    requires Ground(m, bs) && a in bs && Quiet(bs, a)
    ensures Quiet(Parted(bs, a) - {a}, 0)
  {
    hide Ground, Parted;
    PartLayout(bs, a);
    PartedSame(bs, a);
    var cs := Parted(bs, a) - {a};
    forall c | c in cs
      ensures !BothFree(cs, c)
    {
      Positive(m, bs, c);
      assert c + bs[c].size != a ==> !BothFree(bs, c);
    }
  }

  lemma QuietMap(m: Memory, bs: Blocks, r: int, n: int)
    requires Ground(m, bs) && Quiet(bs, 0) && r !in bs
    ensures Quiet(bs[r := Region(n)], 0)
  {
    hide Ground;
    var cs := bs[r := Region(n)];
    forall c | c in cs
      ensures !BothFree(cs, c)
    {
      if c in bs {
        Positive(m, bs, c);
        assert !BothFree(bs, c);
      }
    }
  }

  lemma QuietJoin(m: Memory, bs: Blocks, p: int, r: int)
    requires Ground(m, bs) && Quiet(bs, 0) && p in bs && r in bs && p != r && p + bs[p].size == r && !bs[r].free
    ensures Quiet(Joined(bs, p, r), 0)
  {
    hide Ground;
    var cs := Joined(bs, p, r);
    forall c | c in cs
      ensures !BothFree(cs, c)
    {
      Positive(m, bs, c);
      assert !BothFree(bs, c);
    }
  }

  /** The block at `a` has left the heap. */
  ghost predicate Released(bs: Blocks, cs: Blocks, a: int) {
    && a in bs && cs.Keys == bs.Keys - {a}
    && forall c :: c in cs ==> cs[c].size == bs[c].size && cs[c].free == bs[c].free
  }

  /** The words of [lo, hi) are no longer mapped; all others are. */
  ghost predicate Gone(m: Memory, n: Memory, lo: int, hi: int) {
    forall w :: w in n <==> w in m && !(lo <= w < hi)
  }

  lemma UnmapKeeps(m0: Memory, bs0: Blocks, m: Memory, bs: Blocks, a: int)
    requires Ground(m, bs) && a in bs && a in bs0 && Kin(bs0, bs, a) && bs[a].size == bs0[a].size && m.Keys == m0.Keys
    ensures Released(bs0, Parted(bs, a) - {a}, a)
    ensures Gone(m0, Without(PartedMemory(m, bs, a), a, a + bs[a].size), a, a + bs[a].size)
    ensures Quiet(bs0, a) ==> Quiet(Parted(bs, a) - {a}, 0)
  {
    hide Ground, Quiet, Parted, PartedMemory;
    PartedSame(bs, a);
    PartWords(m, bs, a);
    if Quiet(bs0, a) {
      QuietKin(bs0, bs, a);
      QuietUnmap(m, bs, a);
    }
  }

  /** How many bytes a free block at `h` gives back: whole pages, if it starts at a page
      and what is left of it can be a block. */
  function TrimSize(h: int, size: int): int {
    var pages := size / PAGE * PAGE;
    if size < PAGE || h % PAGE != 0 || 0 < size - pages < MIN_SIZE then 0 else pages
  }

  ghost predicate Trimmed(m: Memory, bs: Blocks, n: Memory, cs: Blocks, h: int) {
    h in bs &&
    var size, k := bs[h].size, TrimSize(h, bs[h].size);
    if k == 0 then n == m && cs == bs
    else h !in cs && Gone(m, n, h, h + k) && (k < size ==> h + k in cs && cs[h + k].free && cs[h + k].size == size - k)
  }

  // --- which words are mapped ---

  lemma StampKeys(m: Memory, bs: Blocks, a: int, b: Block)
    requires Ground(m, bs) && a in bs && b.size == bs[a].size
    ensures Stamp(m, a, b).Keys == m.Keys
  {
    hide Ground;
    Header(m, bs, a);
  }

  lemma LinkKeys(m: Memory, bs: Blocks, fl: seq<int>, i: int)
    requires Ground(m, bs) && Chain(bs, fl) && 0 <= i < |fl|
    ensures LinkMemory(m, fl, i).Keys == m.Keys
  {
    hide Ground, Chain;
    if i > 0 {
      LinkedAt(m, bs, fl, i - 1);
    }
    if i + 1 < |fl| {
      LinkedAt(m, bs, fl, i + 1);
    }
  }

  lemma PushKeys(m: Memory, bs: Blocks, fl: seq<int>, a: int)
    requires Ground(m, bs) && Chain(bs, fl) && a in bs
    ensures PushMemory(m, fl, a).Keys == m.Keys
  {
    hide Ground, Chain;
    Positive(m, bs, a);
    if fl != [] {
      LinkedAt(m, bs, fl, 0);
    }
  }

  lemma CutWordsKept(m: Memory, bs: Blocks, a: int, n: int)
    requires Ground(m, bs) && a in bs && CanCut(bs, a, n)
    ensures CutMemory(m, bs, a, n).Keys == m.Keys
  {
    GroundSpaced(m, bs);
    CutKeys(m, bs, a, n);
  }

  lemma FewerWords(m: Memory, n: Memory, lo: int, hi: int)
    requires Gone(m, n, lo, hi)
    ensures |n.Keys| <= |m.Keys|
  {
    forall w | w in n.Keys
      ensures w in m.Keys
    {
      assert w in n;
    }
    SubsetCard(n.Keys, m.Keys);
  }

  /** A new region adds exactly its own words. */
  lemma ZeroedCard(m: Memory, r: int, n: nat)
    requires Unused(m, r, n) && n % 8 == 0
    ensures 8 * |Zeroed(m, r, n).Keys| == 8 * |m.Keys| + n
  {
    hide Range, Zeroed;
    var k := n / 8;
    RangeCard(r, k);
    forall w
      ensures w in Range(r, k) <==> w in Zeroed(m, r, n) && w !in m
    {
      RangeMember(r, k, w);
      ZeroedAt(m, r, n, w);
    }
    ZeroedAt(m, r, n, r);
    SplitCard(Zeroed(m, r, n).Keys, m.Keys, Range(r, k));
  }

  lemma ZeroedAt(m: Memory, r: int, n: nat, w: int)
    requires Unused(m, r, n)
    ensures w in Zeroed(m, r, n) <==> w in m || (r <= w < r + n && (w - r) % 8 == 0)
    ensures r <= w < r + n ==> w !in m
    ensures m.Keys <= Zeroed(m, r, n).Keys
  {
  }

  lemma SplitCard(a: set<int>, b: set<int>, c: set<int>)
    requires b <= a && forall w :: w in c <==> w in a && w !in b
    ensures |a| == |b| + |c|
  {
    forall w
      ensures w in a <==> w in b + c
      ensures !(w in b && w in c)
    {
    }
    assert a == b + c && b !! c;
  }

  // --- the invariant ---

  /** One region of whole pages more than `m` has. */
  ghost predicate PagesMore(m: Memory, peak: int, n: int) {
    1 <= n <= MAX_PAGES && peak == 8 * |m.Keys| + n * PAGE
  }

  /** The record stands, or it is a new one: what was mapped and one region more. */
  ghost predicate PeakAfter(m: Memory, peak0: int, peak: int) {
    peak == peak0 || (peak > peak0 && exists n :: PagesMore(m, peak, n))
  }

  /** No more than `peak` bytes are mapped, and if that fits one block then no two linked
      neighbours are both free. */
  ghost predicate Tight(m: Memory, bs: Blocks, peak: int) {
    8 * |m.Keys| <= peak && (peak <= INT_MAX ==> Quiet(bs, 0))
  }

  function Most(x: int, y: int): int {
    if x < y then y else x
  }

  lemma TakeQuiet(m0: Memory, bs0: Blocks, m1: Memory, bs1: Blocks, m2: Memory, bs2: Blocks, m: Memory, bs: Blocks,
                  a: int, n: int)
    requires a in bs0 && bs0[a].free && bs1 == bs0[a := Marked(bs0[a], false)] && MIN_SIZE <= n <= bs0[a].size
    requires SplitDone(m1, bs1, m2, bs2, a, bs1[a].size, n) && Kin(bs2, bs, a) && a in bs && !bs[a].free
    requires Quiet(bs0, 0) && Ground(m0, bs0) && Ground(m1, bs1) && Ground(m, bs)
    ensures Quiet(bs, 0)
  {
    hide Ground, Quiet, SplitDone, Kin;
    QuietOne(m0, bs0, a);
    Positive(m0, bs0, a);
    QuietMarked(bs0, a, false);
    QuietSplit(m1, bs1, m2, bs2, a, n);
    QuietKin(bs2, bs, a);
    QuietAll(m, bs, a);
  }

  /** Cutting a used block that no free one follows. */
  lemma CutQuiet(m: Memory, bs: Blocks, p: Memory, cs: Blocks, a: int, n: int)
    requires a in bs && !bs[a].free && NextUsed(bs, a) && Quiet(bs, a) && MIN_SIZE <= n <= bs[a].size
    requires SplitDone(m, bs, p, cs, a, bs[a].size, n) && Ground(m, bs) && Ground(p, cs)
    ensures Quiet(cs, 0)
  {
    hide Ground, Quiet, Same;
    QuietSplit(m, bs, p, cs, a, n);
    QuietAll(p, cs, a);
  }

  lemma SealQuiet(m: Memory, bs: Blocks, n: Memory, cs: Blocks, h: int)
    requires h in bs && cs == bs[h := Marked(bs[h], false)] && Quiet(bs, 0) && Ground(m, bs) && Ground(n, cs)
    ensures Quiet(cs, 0)
  {
    hide Ground, Quiet;
    QuietOne(m, bs, h);
    QuietMarked(bs, h, false);
    QuietAll(n, cs, h);
  }

  /** A used block that grows over a free one has a used neighbour then. */
  lemma FuseQuiet(m: Memory, bs: Blocks, n: Memory, cs: Blocks, h: int)
    requires FuseDone(m, bs, n, cs, h) && bs[h].hasNext && bs[h + bs[h].size].free && Quiet(bs, 0) && Ground(m, bs)
    ensures Quiet(cs, h) && NextUsed(cs, h)
  {
    hide Ground, Undisturbed, Same;
    var next := h + bs[h].size;
    Positive(m, bs, h);
    Positive(m, bs, next);
    forall c | c in cs && c != h && c + cs[c].size != h
      ensures !BothFree(cs, c)
    {
      Positive(m, bs, c);
      assert !BothFree(bs, c);
    }
    assert !BothFree(bs, next);
    assert cs[h].hasNext ==> Alike(bs, cs, next + bs[next].size);
  }

  lemma TrimKeeps(m: Memory, bs: Blocks, p: Memory, cs: Blocks, h: int, n: int)
    requires Ground(m, bs) && h in bs && bs[h].free && 0 < n <= bs[h].size
    requires if n == bs[h].size then cs == bs else SplitDone(m, bs, p, cs, h, bs[h].size, n)
    ensures Quiet(bs, 0) ==> Quiet(cs, h)
  {
    hide Ground, Quiet, SplitDone;
    if Quiet(bs, 0) {
      QuietOne(m, bs, h);
      if n < bs[h].size {
        QuietSplit(m, bs, p, cs, h, n);
      }
    }
  }

  lemma TrimDone(m0: Memory, bs0: Blocks, m1: Memory, bs1: Blocks, m: Memory, bs: Blocks, h: int, n: int)
    requires h in bs0 && n == TrimSize(h, bs0[h].size) && 0 < n <= bs0[h].size && m1.Keys == m0.Keys
    requires if n == bs0[h].size then bs1 == bs0 else SplitDone(m0, bs0, m1, bs1, h, bs0[h].size, n)
    requires Released(bs1, bs, h) && Gone(m1, m, h, h + n)
    ensures Trimmed(m0, bs0, m, bs, h) && |m.Keys| <= |m0.Keys|
  {
    hide Same;
    FewerWords(m1, m, h, h + n);
  }
}
