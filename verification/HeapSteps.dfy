/**
 src/heap.c: what each group of writes does to the tagged blocks, the free list and
 the live payloads.
 */
module HeapSteps {
  import opened Options
  import opened HeapSpec
  import opened HeapBlocks
  import opened HeapSound

  const META := 16
  const MAX_PAGES := 16383

  // --- memory as the code writes it ---

  lemma OneSided(m: Memory, a: int, l: Link)
    requires l.On? && a + 8 in m && a + 16 in m
    ensures m[a + 16] == Ptr(l.prior) ==> m[a + 8 := Ptr(l.next)] == Relink(m, a, l)
    ensures m[a + 8] == Ptr(l.next) ==> m[a + 16 := Ptr(l.prior)] == Relink(m, a, l)
  {
  }

  /** The word holding `next` of the payload pointer `p`, and the one holding `prev`. */
  function NextPut(m: Memory, p: int, v: int): Memory {
    if p == 0 then m else m[p := Ptr(v)]
  }

  function PriorPut(m: Memory, p: int, v: int): Memory {
    if p == 0 then m else m[p + 8 := Ptr(v)]
  }

  lemma LinkedAt(m: Memory, bs: Blocks, fl: seq<int>, i: int)
    requires Ground(m, bs) && Chain(bs, fl) && 0 <= i < |fl|
    ensures fl[i] in bs && fl[i] > 0 && bs[fl[i]].link == On(At(fl, i + 1), At(fl, i - 1))
    ensures fl[i] + 8 in m && fl[i] + 16 in m && m[fl[i] + 8] == Ptr(At(fl, i + 1))
            && m[fl[i] + 16] == Ptr(At(fl, i - 1))
  {
    hide Ground, Chain, At;
    ChainAt(bs, fl, i);
    Positive(m, bs, fl[i]);
  }

  lemma UnlinkWrites(m: Memory, bs: Blocks, fl: seq<int>, i: int)
    requires Ground(m, bs) && Chain(bs, fl) && 0 <= i < |fl|
    ensures PriorPut(NextPut(m, At(fl, i - 1), At(fl, i + 1)), At(fl, i + 1), At(fl, i - 1)) == LinkMemory(m, fl, i)
    ensures At(fl, i - 1) != 0 <==> i > 0
    ensures At(fl, i + 1) != 0 <==> i + 1 < |fl|
    ensures i > 0 ==> At(fl, i - 1) in m
    ensures i + 1 < |fl| ==> At(fl, i + 1) + 8 in m && At(fl, i + 1) + 8 in NextPut(m, At(fl, i - 1), At(fl, i + 1))
  {
    hide Ground, Chain, Relink;
    LinkedAt(m, bs, fl, i);
    var n, cs := m, bs;
    if i > 0 {
      LinkedAt(m, bs, fl, i - 1);
      var l := On(At(fl, i + 1), At(fl, i - 2));
      OneSided(m, fl[i - 1], l);
      LinkSet(m, bs, fl[i - 1], l);
      n, cs := Relink(m, fl[i - 1], l), WithLink(bs, fl[i - 1], l);
    }
    if i + 1 < |fl| {
      LinkedAt(m, bs, fl, i + 1);
      assert fl[i + 1] in cs && cs[fl[i + 1]] == bs[fl[i + 1]] by {
        ChainDistinct(bs, fl, i);
      }
      Positive(n, cs, fl[i + 1]);
      OneSided(n, fl[i + 1], On(At(fl, i + 2), At(fl, i - 1)));
    }
  }

  lemma ChainDistinct(bs: Blocks, fl: seq<int>, i: int)
    requires Chain(bs, fl) && 0 <= i < |fl|
    ensures i > 0 && i + 1 < |fl| ==> fl[i - 1] != fl[i + 1]
  {
  }

  lemma PushWrites(m: Memory, bs: Blocks, fl: seq<int>, a: int)
    requires Ground(m, bs) && Chain(bs, fl) && a in bs && bs[a].link.Off?
    ensures a > 0 && (At(fl, 0) != 0 <==> fl != []) && a + 8 in m && a + 16 in m
    ensures fl != [] ==> At(fl, 0) + 8 in m
    ensures PriorPut(m[a + 8 := Ptr(At(fl, 0))][a + 16 := Ptr(0)], At(fl, 0), a + 8) == PushMemory(m, fl, a)
  {
    hide Ground, Chain;
    Positive(m, bs, a);
    if fl != [] {
      LinkedAt(m, bs, fl, 0);
      var l := On(At(fl, 0), 0);
      LinkSet(m, bs, a, l);
      var n, cs := Relink(m, a, l), WithLink(bs, a, l);
      Positive(n, cs, fl[0]);
      OneSided(n, fl[0], On(At(fl, 1), a + 8));
    }
  }

  lemma PushOrder(m: Memory, a: int, start: int)
    ensures start == 0 ==> m[a + 8 := Ptr(0)][a + 16 := Ptr(0)][a + 16 := Ptr(0)][a + 8 := Ptr(0)]
                           == PriorPut(m[a + 8 := Ptr(start)][a + 16 := Ptr(0)], start, a + 8)
    ensures start != 0
            ==> m[a + 8 := Ptr(0)][a + 16 := Ptr(0)][a + 8 := Ptr(start)][a + 16 := Ptr(0)][start + 8 := Ptr(a + 8)]
                           == PriorPut(m[a + 8 := Ptr(start)][a + 16 := Ptr(0)], start, a + 8)
  {
  }

  lemma AtHead(fl: seq<int>, a: int)
    ensures At([a] + fl, 0) == a + 8
  {
  }

  /** Apart from `a`, only links changed, and membership in the free list did not. */
  ghost predicate Kin(bs: Blocks, cs: Blocks, a: int) {
    && cs.Keys == bs.Keys
    && forall c :: c in bs && c != a ==> cs[c] == bs[c].(link := cs[c].link) && (cs[c].link.On? <==> bs[c].link.On?)
  }

  /** `setFree` on a removed block, then the two neighbours in the list. */
  lemma RemoveSteps(m: Memory, bs: Blocks, fl: seq<int>, xs: set<int>, last: int, a: int, i: int)
    requires Sound(m, bs, fl, xs, last) && 0 <= i < |fl| && fl[i] == a && a in bs
    ensures var n, cs := Stamp(m, a, Marked(bs[a], false)), bs[a := Marked(bs[a], false)];
            var p, ds := LinkMemory(n, fl, i), Removed(cs, fl, i);
            && Ground(n, cs) && Chain(cs, fl)
            && Sound(p, ds, Drop(fl, i), xs - {a}, last) && Undisturbed(m, bs, p, ds, {a})
            && Kin(bs, ds, a) && a in ds && ds[a] == Marked(bs[a], false).(link := Off)
  {
    hide Ground, Chain, Rest, Ended, Undisturbed, Stamp, LinkMemory, Removed, Drop;
    var n, cs := Stamp(m, a, Marked(bs[a], false)), bs[a := Marked(bs[a], false)];
    SoundFree(m, bs, fl, xs, last, a, false);
    SoundRemove(n, cs, fl, xs + {a}, last, i);
    assert (xs + {a}) - {a} == xs - {a};
    UndisturbedTrans(m, bs, n, cs, LinkMemory(n, fl, i), Removed(cs, fl, i), {a}, {a}, {a});
  }

  lemma AppendSteps(m: Memory, bs: Blocks, fl: seq<int>, xs: set<int>, last: int, a: int)
    requires Sound(m, bs, fl, xs, last) && a in bs && bs[a].link.Off?
    ensures var n, cs := Stamp(m, a, Marked(bs[a], true)), bs[a := Marked(bs[a], true)];
            var p, ds := PushMemory(n, fl, a), Pushed(cs, fl, a);
            && Ground(n, cs) && Chain(cs, fl)
            && Sound(p, ds, [a] + fl, xs - {a}, last) && Undisturbed(m, bs, p, ds, {a})
            && Kin(bs, ds, a) && a in ds && ds[a] == Marked(bs[a], true).(link := ds[a].link) && ds[a].link.On?
  {
    hide Ground, Chain, Rest, Ended, Undisturbed, Stamp, PushMemory, Pushed;
    var n, cs := Stamp(m, a, Marked(bs[a], true)), bs[a := Marked(bs[a], true)];
    SoundFree(m, bs, fl, xs, last, a, true);
    SoundPush(n, cs, fl, xs + {a}, last, a);
    assert (xs + {a}) - {a} == xs - {a};
    UndisturbedTrans(m, bs, n, cs, PushMemory(n, fl, a), Pushed(cs, fl, a), {a}, {a}, {a});
  }

  lemma Header(m: Memory, bs: Blocks, a: int)
    requires Ground(m, bs) && a in bs
    ensures a in m && m[a] == HdrOf(bs[a]) && a + bs[a].size - 8 in m && MIN_SIZE <= bs[a].size <= INT_MAX && a > 0
    ensures bs[a].sealed ==> m[a + bs[a].size - 8] == Ftr(bs[a].size, bs[a].free)
  {
    hide Ground;
    Positive(m, bs, a);
  }

  // --- positions in the list ---

  ghost function Position(bs: Blocks, fl: seq<int>, a: int): (i: int)
    requires Chain(bs, fl) && a in bs && bs[a].link.On?
    ensures 0 <= i < |fl| && fl[i] == a
  {
    var i :| 0 <= i < |fl| && fl[i] == a;
    i
  }

  // --- splitting ---

  lemma Unchanged(m: Memory, bs: Blocks, a: int, lo: int, hi: int)
    ensures Undisturbed(m, bs, m, bs, {a}) && Same(m, m, lo, hi)
  {
  }

  /** The words `split` writes before it appends the new block. */
  lemma CutWrites(m: Memory, bs: Blocks, a: int, n: int)
    requires Ground(m, bs) && a in bs && CanCut(bs, a, n)
    ensures CutCells(m, a, bs[a], n)
    ensures CutStores(m, a, bs[a], n) == CutMemory(m, bs, a, n)
    ensures bs[a].hasNext ==> PrevMarked(CutMemory(m, bs, a, n), a + bs[a].size)
  {
    hide Ground, Cut;
    Header(m, bs, a);
    Positive(m, bs, a);
    CutGround(m, bs, a, n);
    if bs[a].hasNext {
      CutNext(m, bs, a, n);
      Header(CutMemory(m, bs, a, n), Cut(bs, a, n), a + bs[a].size);
    }
  }

  ghost predicate CutCells(m: Memory, a: int, b: Block, n: int) {
    a in m && m[a] == HdrOf(b) && a + n - 8 in m && a + n in m && a + b.size - 8 in m
  }

  function CutStores(m: Memory, a: int, b: Block, n: int): Memory {
    m[a := Hdr(n, b.free, b.prev != 0, true)][a + n - 8 := Ftr(n, b.free)]
     [a + n := Hdr(b.size - n, true, true, b.hasNext)][a + b.size - 8 := Ftr(b.size - n, true)]
  }

  /** Setting `has_prev` of a linked right neighbour again changes nothing. */
  ghost predicate PrevMarked(m: Memory, next: int) {
    next in m && m[next].Hdr? && m[next := m[next].(hasPrev := true)] == m
  }

  lemma CutNext(m: Memory, bs: Blocks, a: int, n: int)
    requires Ground(m, bs) && a in bs && CanCut(bs, a, n) && bs[a].hasNext
    ensures a + bs[a].size in Cut(bs, a, n) && Cut(bs, a, n)[a + bs[a].size].prev == a + n && a > 0 && n >= MIN_SIZE
  {
    hide Ground;
    Positive(m, bs, a);
  }

  lemma CutFresh(bs: Blocks, a: int, n: int, m: Memory)
    requires Ground(m, bs) && a in bs && CanCut(bs, a, n)
    ensures a + n in Cut(bs, a, n) && Cut(bs, a, n)[a + n].link.Off?
  {
    GroundSpaced(m, bs);
    CutSame(bs, a, n);
  }

  ghost predicate SplitOf(bs: Blocks, cs: Blocks, a: int, n: int)
    requires a in bs
  {
    && cs.Keys == bs.Keys + {a + n} && a + n !in bs
    && cs[a] == bs[a].(size := n, hasNext := true, sealed := true, link := cs[a].link)
    && (cs[a].link.On? <==> bs[a].link.On?)
    && cs[a + n].free && cs[a + n].link.On? && cs[a + n].size == bs[a].size - n && cs[a + n].hasNext == bs[a].hasNext
    && forall c :: c in bs && c != a
         ==> cs[c] == bs[c].(prev := cs[c].prev, link := cs[c].link) && (cs[c].link.On? <==> bs[c].link.On?)
  }

  /** What a split leaves of the block at `a`: at least `n` bytes, with their payload. */
  ghost predicate SplitDone(m: Memory, bs: Blocks, p: Memory, ds: Blocks, a: int, total: int, n: int) {
    && a in bs && a in ds
    && (if total - n < MIN_SIZE then p == m && ds == bs else SplitOf(bs, ds, a, n))
    && (ds[a].link.Off? ==> Same(m, p, a + 8, a + n - 8))
  }

  lemma SplitKeeps(m: Memory, bs: Blocks, n: Memory, cs: Blocks, p: Memory, ds: Blocks, a: int, k: int)
    requires Ground(m, bs) && a in bs && CanCut(bs, a, k) && cs == Cut(bs, a, k) && n == CutMemory(m, bs, a, k)
    requires a + k in cs && Kin(cs, ds, a + k) && a + k in ds
             && ds[a + k] == Marked(cs[a + k], true).(link := ds[a + k].link) && ds[a + k].link.On?
    requires Undisturbed(m, bs, n, cs, {a, a + k}) && Undisturbed(n, cs, p, ds, {a + k}) && Same(m, n, a + 8, a + k - 8)
    ensures SplitDone(m, bs, p, ds, a, bs[a].size, k) && Undisturbed(m, bs, p, ds, {a})
  {
    hide Ground, Cut, Undisturbed, Same, CutMemory;
    SplitShape(m, bs, cs, ds, a, k);
    UndisturbedTrans(m, bs, n, cs, p, ds, {a, a + k}, {a + k}, {a});
    if ds[a].link.Off? {
      KeptInner(n, cs, p, ds, a, {a + k});
      SameTrans(m, n, p, a + 8, a + k - 8);
    }
  }

  lemma SplitShape(m: Memory, bs: Blocks, cs: Blocks, ds: Blocks, a: int, k: int)
    requires Ground(m, bs) && a in bs && CanCut(bs, a, k) && cs == Cut(bs, a, k)
    requires a + k in cs && Kin(cs, ds, a + k) && a + k in ds
             && ds[a + k] == Marked(cs[a + k], true).(link := ds[a + k].link) && ds[a + k].link.On?
    ensures SplitOf(bs, ds, a, k) && cs[a].size == k && a + k !in bs && a + k != a
    ensures cs[a].link.On? <==> ds[a].link.On?
  {
    hide Ground, Cut;
    assert Spaced(bs) by {
      GroundSpaced(m, bs);
    }
    CutSame(bs, a, k);
  }

  lemma KeptInner(m: Memory, bs: Blocks, n: Memory, cs: Blocks, a: int, xs: set<int>)
    requires Undisturbed(m, bs, n, cs, xs) && a in bs && a !in xs && bs[a].link.Off?
    ensures Same(m, n, a + 8, a + bs[a].size - 8)
  {
    assert KeptAt(m, bs, n, cs, a);
  }

  lemma SameTrans(m: Memory, n: Memory, p: Memory, lo: int, hi: int)
    requires Same(m, n, lo, hi) && Same(n, p, lo, hi)
    ensures Same(m, p, lo, hi)
  {
  }

  // --- merging ---

  /** The free right neighbour fits into the block. */
  ghost predicate CanAbsorb(bs: Blocks, h: int) {
    && h in bs && bs[h].hasNext && bs[h].size > 0 && h + bs[h].size in bs && bs[h + bs[h].size].link.On?
    && bs[h].size + bs[h + bs[h].size].size <= INT_MAX
  }

  /** Only links and the left neighbour may differ. */
  ghost predicate Alike(bs: Blocks, cs: Blocks, c: int) {
    c in bs && c in cs && cs[c].size == bs[c].size && cs[c].free == bs[c].free && cs[c].hasNext == bs[c].hasNext
  }

  /** The block at `h` has grown over its right neighbour. */
  ghost predicate FuseDone(m: Memory, bs: Blocks, n: Memory, cs: Blocks, h: int) {
    && h in bs && h in cs && h + bs[h].size in bs
    && cs.Keys == bs.Keys - {h + bs[h].size}
    && cs[h].size == bs[h].size + bs[h + bs[h].size].size && cs[h].free == bs[h].free
    && cs[h].hasNext == bs[h + bs[h].size].hasNext && cs[h].prev == bs[h].prev
    && (forall c :: c in cs && c != h ==> Alike(bs, cs, c))
    && (cs[h].link.On? <==> bs[h].link.On?)
    && Undisturbed(m, bs, n, cs, if bs[h].link.On? then {} else {h})
    && (bs[h].link.Off? ==> Same(m, n, h + 8, h + bs[h].size - 8))
  }

  ghost predicate LeftIs(m: Memory, bs: Blocks, a: int, p: int) {
    && a in bs && p in bs && p + bs[p].size == a
    && a in m && m[a] == HdrOf(bs[a])
    && a - 8 in m && m[a - 8] == Ftr(bs[p].size, bs[p].free)
    && p in m && m[p] == HdrOf(bs[p])
  }

  lemma LeftFooter(m: Memory, bs: Blocks, a: int)
    requires a in bs && Ground(m, bs) && Rest(bs, {}) && bs[a].prev != 0
    ensures LeftIs(m, bs, a, bs[a].prev)
  {
    hide Ground;
    Positive(m, bs, a);
    Header(m, bs, a);
    Header(m, bs, bs[a].prev);
  }

  lemma LeftAbsorbs(m: Memory, bs: Blocks, a: int, p: int)
    requires a in bs && Ground(m, bs) && Rest(bs, {}) && bs[a].prev == p && p in bs && p != 0 && bs[p].free
             && bs[a].free
    requires bs[p].size + bs[a].size <= INT_MAX
    ensures CanAbsorb(bs, p) && p + bs[p].size == a
  {
    hide Ground;
    Positive(m, bs, a);
    Header(m, bs, p);
  }

  lemma RestMore(bs: Blocks, a: int)
    requires Rest(bs, {}) && a in bs && bs[a].free
    ensures Rest(bs, {a}) && bs[a].link.On?
  {
  }

  ghost predicate RightIs(m: Memory, bs: Blocks, h: int, next: int, xs: set<int>) {
    && h in bs && next == h + bs[h].size && next in bs
    && next in m && m[next] == HdrOf(bs[next])
    && (bs[next].free && next !in xs && bs[h].size + bs[next].size <= INT_MAX ==> CanAbsorb(bs, h))
    && next != h
  }

  lemma RightHeader(m: Memory, bs: Blocks, h: int, xs: set<int>)
    requires h in bs && Ground(m, bs) && Rest(bs, xs) && bs[h].hasNext
    ensures RightIs(m, bs, h, h + bs[h].size, xs)
  {
    hide Ground;
    Positive(m, bs, h);
    Header(m, bs, h + bs[h].size);
  }

  /** The header write that merges, once the neighbour is off the list. */
  ghost predicate FuseReady(m0: Memory, bs0: Blocks, m: Memory, bs: Blocks, fl: seq<int>, xs: set<int>, last: int,
                            h: int, next: int) {
    && h in bs && next in bs && next == h + bs[h].size
    && h in m && next in m && m[h] == HdrOf(bs[h]) && m[next] == HdrOf(bs[next])
    && var n, cs := m[h := HdrOf(Fused(bs[h], bs[next]))], Fuse(bs, h);
    && Sound(n, cs, fl, xs + {h}, last) && FuseDone(m0, bs0, n, cs, h)
    && (bs[next].hasNext ==> PrevMarked(n, next + bs[next].size))
  }

  ghost predicate OffList(bs0: Blocks, bs: Blocks, next: int) {
    next in bs0 && next in bs && Kin(bs0, bs, next) && bs[next] == Marked(bs0[next], false).(link := Off)
  }

  lemma FuseStep(m0: Memory, bs0: Blocks, m: Memory, bs: Blocks, fl: seq<int>, xs: set<int>, last: int, h: int,
                 next: int)
    requires CanAbsorb(bs0, h) && next == h + bs0[h].size && OffList(bs0, bs, next)
    requires Sound(m, bs, fl, xs, last) && Undisturbed(m0, bs0, m, bs, {next})
    ensures FuseReady(m0, bs0, m, bs, fl, xs, last, h, next)
  {
    hide Ground, Chain, Ended, Undisturbed, Fuse, Rest, Same, Outside, PrevMarked, HdrOf;
    Header(m, bs, h);
    Header(m, bs, next);
    SoundFuse(m, bs, fl, xs, last, h);
    var n, cs := m[h := HdrOf(Fused(bs[h], bs[next]))], Fuse(bs, h);
    FuseSame(bs, h);
    FuseKeeps(m0, bs0, m, bs, n, cs, h, next);
    if bs[next].hasNext {
      FuseMarks(m, bs, n, h, next);
    }
  }

  lemma FuseMarks(m: Memory, bs: Blocks, n: Memory, h: int, next: int)
    requires h in bs && next in bs && next == h + bs[h].size && CanFuse(bs, h) && bs[next].hasNext
    requires Ground(m, bs) && Ground(n, Fuse(bs, h))
    ensures PrevMarked(n, next + bs[next].size)
  {
    hide Ground, Fuse;
    Positive(m, bs, next);
    Positive(m, bs, h);
    FuseNext(bs, h, next);
    Header(n, Fuse(bs, h), next + bs[next].size);
  }

  lemma FuseNext(bs: Blocks, h: int, next: int)
    requires h in bs && next in bs && next == h + bs[h].size && CanFuse(bs, h) && bs[next].hasNext && h > 0
             && bs[h].size > 0 && bs[next].size > 0
    requires next + bs[next].size in bs
    ensures next + bs[next].size in Fuse(bs, h) && Fuse(bs, h)[next + bs[next].size].prev == h
  {
  }

  lemma FuseKeeps(m0: Memory, bs0: Blocks, m: Memory, bs: Blocks, n: Memory, cs: Blocks, h: int, next: int)
    requires CanAbsorb(bs0, h) && next == h + bs0[h].size && OffList(bs0, bs, next)
    requires Undisturbed(m0, bs0, m, bs, {next}) && Undisturbed(m, bs, n, cs, {h, next}) && Outside(m, n, h, h + 8)
    requires cs.Keys == bs.Keys - {next} && h in cs && cs[h] == Fused(bs[h], bs[next])
    requires forall c :: c in cs && c != h ==> cs[c] == bs[c].(prev := cs[c].prev)
    ensures FuseDone(m0, bs0, n, cs, h)
  {
    hide Undisturbed, Same, Outside;
    var zs: set<int> := if bs0[h].link.On? then {} else {h};
    UndisturbedTrans(m0, bs0, m, bs, n, cs, {next}, {h, next}, zs);
    if bs0[h].link.Off? {
      KeptInner(m0, bs0, m, bs, h, {next});
      OutsideSame(m, n, h, h + 8, h + 8, h + bs0[h].size - 8);
      SameTrans(m0, m, n, h + 8, h + bs0[h].size - 8);
    }
  }

  lemma OutsideSame(m: Memory, n: Memory, a: int, b: int, lo: int, hi: int)
    requires Outside(m, n, a, b) && b <= lo
    ensures Same(m, n, lo, hi)
  {
  }

  // --- giving regions back ---

  /** The two header writes of `unmap`. */
  ghost predicate PartReady(m: Memory, bs: Blocks, a: int) {
    && a in bs && a in m && m[a] == HdrOf(bs[a]) && a > 0
    && (bs[a].prev != 0 ==> LeftIs(m, bs, a, bs[a].prev) && bs[a].prev != a)
    && (bs[a].hasNext ==> RightIs(m, bs, a, a + bs[a].size, {}) && a + bs[a].size != bs[a].prev)
    && PartStores(m, a, HdrOf(bs[a]), bs[a].prev, a + bs[a].size) == PartedMemory(m, bs, a)
  }

  function NoNext(m: Memory, p: int): Memory {
    if p in m && m[p].Hdr? then m[p := m[p].(hasNext := false)] else m
  }

  function NoPrev(m: Memory, p: int): Memory {
    if p in m && m[p].Hdr? then m[p := m[p].(hasPrev := false)] else m
  }

  function PartStores(m: Memory, a: int, h: Word, prev: int, next: int): Memory
    requires h.Hdr?
  {
    var n := if h.hasPrev then NoNext(m, prev) else m;
    if h.hasNext then NoPrev(n, next) else n
  }

  lemma PartWrites(m: Memory, bs: Blocks, a: int)
    requires a in bs && Ground(m, bs) && Rest(bs, {})
    ensures PartReady(m, bs, a)
  {
    hide Ground;
    Positive(m, bs, a);
    Header(m, bs, a);
    if bs[a].prev != 0 {
      LeftFooter(m, bs, a);
      Header(m, bs, bs[a].prev);
    }
    if bs[a].hasNext {
      RightHeader(m, bs, a, {});
    }
  }

  // --- live blocks ---

  ghost function LiveOf(bs: Blocks): map<int, int> {
    map a | a in bs && !bs[a].free :: bs[a].size - META
  }

  /** The payloads of these blocks hold what they held. */
  ghost predicate Untouched(m: Memory, n: Memory, live: map<int, int>) {
    forall b :: b in live ==> Same(m, n, b + 8, b + 8 + live[b])
  }

  lemma UntouchedRefl(m: Memory, live: map<int, int>)
    ensures Untouched(m, m, live)
  {
  }

  lemma LiveAt(bs: Blocks, h: int)
    ensures h in LiveOf(bs) <==> h in bs && !bs[h].free
    ensures h in LiveOf(bs) ==> LiveOf(bs)[h] == bs[h].size - META
    ensures h !in LiveOf(bs) ==> LiveOf(bs) - {h} == LiveOf(bs)
  {
  }

  ghost predicate HeadAt(m: Memory, bs: Blocks, xs: set<int>, h: int) {
    && h in bs && h in m && m[h] == HdrOf(bs[h]) && MIN_SIZE <= bs[h].size <= INT_MAX && h > 0
    && bs[h].size % 8 == 0 && h % 8 == 0
    && (h !in xs ==> (bs[h].free <==> bs[h].link.On?))
  }

  lemma SoundHeader(m: Memory, bs: Blocks, fl: seq<int>, xs: set<int>, last: int, h: int)
    requires h in bs && Sound(m, bs, fl, xs, last)
    ensures HeadAt(m, bs, xs, h)
  {
    hide Ground, Chain, Ended;
    Header(m, bs, h);
    Positive(m, bs, h);
  }

  /** Off the free list and live are the same thing at rest. */
  lemma LiveKept(m: Memory, bs: Blocks, n: Memory, cs: Blocks, xs: set<int>)
    requires Undisturbed(m, bs, n, cs, xs) && Rest(bs, {}) && Rest(cs, {})
    ensures LiveOf(cs) - xs == LiveOf(bs) - xs && Untouched(m, n, LiveOf(bs) - xs)
  {
    forall b | b in bs && b !in xs && !bs[b].free
      ensures b in cs && !cs[b].free && cs[b].size == bs[b].size && Same(m, n, b + 8, b + bs[b].size - 8)
    {
      assert KeptAt(m, bs, n, cs, b);
    }
    hide Same;
    assert forall b :: b in LiveOf(cs) - xs ==> b in LiveOf(bs) - xs;
  }

  lemma ReleaseLive(m0: Memory, bs0: Blocks, m1: Memory, bs1: Blocks, m: Memory, bs: Blocks, h: int, fl: seq<int>,
                    last: int)
    requires Rest(bs0, {}) && Rest(bs, {}) && h in bs1 && bs1[h].link.On?
    requires Undisturbed(m0, bs0, m1, bs1, {h}) && Undisturbed(m1, bs1, m, bs, {})
    ensures LiveOf(bs) == LiveOf(bs0) - {h} && Untouched(m0, m, LiveOf(bs)) && Undisturbed(m0, bs0, m, bs, {h})
  {
    assert !OffAt(bs, h);
    hide Undisturbed, Untouched;
    UndisturbedTrans(m0, bs0, m1, bs1, m, bs, {h}, {}, {h});
    LiveKept(m0, bs0, m, bs, {h});
    assert LiveOf(bs) == LiveOf(bs) - {h};
  }

  lemma PagesAligned(size: int)
    requires size >= PAGE
    ensures var n := (size / PAGE) * PAGE; n % 8 == 0 && MIN_SIZE <= n <= size
  {
    assert (size / PAGE) * PAGE == 8 * (16384 * (size / PAGE));
  }

  lemma SplitTrim(m: Memory, bs: Blocks, p: Memory, ds: Blocks, a: int, total: int, n: int)
    requires SplitDone(m, bs, p, ds, a, total, n) && total - n >= MIN_SIZE && Undisturbed(m, bs, p, ds, {a})
             && bs[a].link.On?
    ensures Undisturbed(m, bs, p, ds, {}) && ds[a].size == n && ds[a].link.On?
  {
    hide Undisturbed, Same;
    UndisturbedRefl(m, bs);
    UndisturbedTrans(m, bs, m, bs, p, ds, {}, {a}, {});
  }

  // --- searching the free list, sizes ---

  ghost predicate NoneFits(bs: Blocks, fl: seq<int>, size: int, n: int) {
    forall i :: 0 <= i < n && i < |fl| && fl[i] in bs ==> bs[fl[i]].size < size
  }

  ghost predicate FirstFit(bs: Blocks, fl: seq<int>, size: int, p: int) {
    exists i :: 0 <= i < |fl| && fl[i] + 8 == p && fl[i] in bs && bs[fl[i]].size >= size && NoneFits(bs, fl, size, i)
  }

  lemma FreeEnd(fl: seq<int>)
    ensures fl == [] ==> At(fl, 0) == 0
  {
  }

  /** What the walk reads at index `i`, unless it has reached the end. */
  lemma FreeAt(m: Memory, bs: Blocks, fl: seq<int>, xs: set<int>, last: int, i: int)
    requires Sound(m, bs, fl, xs, last) && 0 <= i <= |fl| && At(fl, i) != 0
    ensures WalkAt(m, bs, fl, i)
  {
    hide Ground, Chain, Rest, Ended;
    LinkedAt(m, bs, fl, i);
    Header(m, bs, fl[i]);
  }

  ghost predicate WalkAt(m: Memory, bs: Blocks, fl: seq<int>, i: int) {
    && 0 <= i < |fl| && fl[i] in bs && At(fl, i) == fl[i] + 8
    && fl[i] in m && m[fl[i]] == HdrOf(bs[fl[i]]) && At(fl, i) in m && m[At(fl, i)] == Ptr(At(fl, i + 1))
  }

  lemma FreeNull(m: Memory, bs: Blocks, fl: seq<int>, xs: set<int>, last: int, i: int)
    requires Sound(m, bs, fl, xs, last) && 0 <= i <= |fl| && At(fl, i) == 0
    ensures i == |fl|
  {
    hide Ground, Chain, Rest, Ended;
    if i < |fl| {
      LinkedAt(m, bs, fl, i);
    }
  }

  /** `size_to_block_size`: the least multiple of 8 with room for the request and both
      tags, but no less than a free block needs. */
  function BlockSize(size: nat): (r: Option<int>)
    ensures r.None? <==> size == 0 || size + META > INT_MAX - 7
    ensures r.Some? ==> r.value % 8 == 0 && r.value >= MIN_SIZE && r.value >= size + META && r.value <= INT_MAX
    ensures r.Some? && r.value > MIN_SIZE ==> r.value - 8 < size + META
  {
    if size == 0 || size > INT_MAX - META then None else
    var total := (size + META + 7) / 8 * 8;
    var least := if total < MIN_SIZE then MIN_SIZE else total;
    if least > INT_MAX then None else Some(least)
  }

  /** The same in numbers. */
  lemma BlockSizeIs(size: nat)
    ensures BlockSize(size) == if size == 0 || size > 2147483624 then None
                               else Some(if size <= 16 then 32 else (size + 23) / 8 * 8)
  {
  }

  /** The least number of whole pages that holds a block. */
  function PagesFor(required: nat): (n: nat)
    ensures required <= n * PAGE < required + PAGE
  {
    (required + PAGE - 1) / PAGE
  }

  /** When a request for a new block of `size` bytes is refused: it is 0 or too large, or
      no free block fits and the system cannot be asked or denies the pages. */
  ghost predicate Refuses(bs: Blocks, fl: seq<int>, size: nat, denied: bool) {
    BlockSize(size).None? ||
    (NoneFits(bs, fl, BlockSize(size).value, |fl|) && (PagesFor(BlockSize(size).value) > MAX_PAGES || denied))
  }

  /** The right neighbour is free and gives enough room, within the bound of one block. */
  ghost predicate GrowsInPlace(bs: Blocks, h: int, required: int) {
    && h in bs && bs[h].hasNext && h + bs[h].size in bs && bs[h + bs[h].size].free
    && required <= bs[h].size + bs[h + bs[h].size].size <= INT_MAX
  }

  /** When a resize is answered with null: to free, or when a larger block is neither at
      hand nor to be had. A resize that needs no more room stays where it is. */
  ghost predicate Resizing(p: int, size: nat, bs: Blocks, fl: seq<int>, denied: bool, got: int) {
    && (p == 0 ==> (got == 0 <==> Refuses(bs, fl, size, denied)))
    && (p != 0 && BlockSize(size).None? ==> got == 0)
    && (p != 0 && BlockSize(size).Some? ==> p - 8 in bs && Stays(bs, p - 8, size) == (got == p))
    && (p != 0 && BlockSize(size).Some? && got != p ==> (got == 0 <==> Refuses(bs, fl, size, denied)))
  }

  /** The block has the room, or its right neighbour has. */
  ghost predicate Stays(bs: Blocks, h: int, size: nat) {
    && h in bs && BlockSize(size).Some?
    && (size <= bs[h].size - META || GrowsInPlace(bs, h, BlockSize(size).value))
  }

  /** `clamp_mapped_pages`. */
  function ClampPages(pages: nat): nat {
    if pages > MAX_PAGES then MAX_PAGES else pages
  }

  /** `grow_mapped_pages`. */
  function GrowPages(pages: nat): (r: nat)
    ensures pages <= r || pages > MAX_PAGES
    ensures r <= MAX_PAGES && (pages >= 1 ==> r >= 1)
            && (r == 2 * pages || (r == MAX_PAGES && 2 * pages + 1 >= MAX_PAGES))
  {
    if pages >= MAX_PAGES / 2 then MAX_PAGES else pages * 2
  }

  // --- taking free blocks and new regions ---

  /** A block came to life at `a`; nothing else was disturbed. */
  ghost predicate Gained(m: Memory, bs: Blocks, n: Memory, cs: Blocks, a: int, required: int) {
    && Undisturbed(m, bs, n, cs, {a})
    && a in cs && !cs[a].free && cs[a].link.Off? && required <= cs[a].size < required + MIN_SIZE
    && (a in bs ==> bs[a].free)
  }

  ghost predicate NewBlock(m: Memory, bs: Blocks, n: Memory, cs: Blocks, r: int, bytes: int) {
    && Undisturbed(m, bs, n, cs, {r}) && r !in bs
    && r in cs && !cs[r].free && cs[r].link.Off? && cs[r].size == bytes && !cs[r].hasNext
  }

  lemma SplitSize(m: Memory, bs: Blocks, p: Memory, ds: Blocks, a: int, total: int, n: int)
    requires SplitDone(m, bs, p, ds, a, total, n) && bs[a].size == total && total >= n
    ensures n <= ds[a].size < n + MIN_SIZE && (ds[a].link.On? <==> bs[a].link.On?) && ds[a].free == bs[a].free
  {
    hide Same;
  }

  lemma MapWrites(m: Memory, r: int, n: int)
    requires n % 8 == 0 && n >= MIN_SIZE && Unused(m, r, n)
    ensures r in Zeroed(m, r, n) && r + n - 8 in Zeroed(m, r, n) && r > 0
    ensures Zeroed(m, r, n)[r := Hdr(n, false, false, false)][r + n - 8 := Ftr(n, false)]
            == Stamp(Zeroed(m, r, n), r, Region(n))
  {
    hide Zeroed, Unused;
    RegionCells(m, r, n);
  }

  lemma RegionCells(m: Memory, r: int, n: int)
    requires n % 8 == 0 && n >= MIN_SIZE && Unused(m, r, n)
    ensures r in Zeroed(m, r, n) && r + n - 8 in Zeroed(m, r, n) && r > 0
  {
    var k := n / 8;
    assert r + n - 8 == r + 8 * (k - 1);
    assert (r + n - 8) % 8 == 0;
  }

  ghost predicate JoinReady(m: Memory, bs: Blocks, p: int, r: int) {
    && p in bs && r in bs && r in m && m[r] == HdrOf(bs[r]) && r - 8 in m && m[r - 8].Ftr? && m[r - 8].span == r - p
    && p in m && m[p] == HdrOf(bs[p]) && p != r && p > 0
  }

  lemma JoinWrites(m: Memory, bs: Blocks, fl: seq<int>, last: int, p: int, r: int)
    requires r in bs && EndsAt(bs, p, r) && Sound(m, bs, fl, {}, last)
    ensures JoinReady(m, bs, p, r)
  {
    hide Ground, Chain, Ended;
    Header(m, bs, p);
    Header(m, bs, r);
  }

  // --- allocating ---

  /** A new live block at payload pointer `p`, not much larger than asked for, and no other change. */
  ghost predicate Granted(before: map<int, int>, after: map<int, int>, p: int, size: nat) {
    && p - 8 !in before && p - 8 in after && after == before[p - 8 := after[p - 8]]
    && after[p - 8] >= size && Snug(after[p - 8], size)
  }

  /** What was left over of the block could not be one of its own. */
  ghost predicate Snug(payload: int, size: nat) {
    BlockSize(size).Some? && payload + META < BlockSize(size).value + MIN_SIZE
  }

  lemma EnoughPages(required: nat, pages: nat, mapped: nat)
    requires pages == PagesFor(required) && pages <= mapped
    ensures required <= mapped * PAGE
  {
  }

  lemma PageBytes(n: nat)
    requires 1 <= n <= MAX_PAGES
    ensures (n * PAGE) % 8 == 0 && PAGE <= n * PAGE <= INT_MAX
  {
    assert n * PAGE == 8 * (16384 * n);
  }

  lemma FitHeader(m: Memory, bs: Blocks, fl: seq<int>, xs: set<int>, last: int, size: int, p: int)
    requires Sound(m, bs, fl, {}, last) && FirstFit(bs, fl, size, p)
    ensures Fits(m, bs, p - 8, size) && p % 8 == 0
  {
    hide Ground, Chain, Ended, Rest, NoneFits;
    var i :| 0 <= i < |fl| && fl[i] + 8 == p && fl[i] in bs && bs[fl[i]].size >= size && NoneFits(bs, fl, size, i);
    SoundHeader(m, bs, fl, {}, last, fl[i]);
    ChainAt(bs, fl, i);
  }

  ghost predicate Fits(m: Memory, bs: Blocks, h: int, size: int) {
    h in bs && bs[h].free && bs[h].size >= size && h > 0
  }

  lemma LiveGained(m: Memory, bs: Blocks, n: Memory, cs: Blocks, a: int, required: int, size: nat)
    requires BlockSize(size) == Some(required) && Gained(m, bs, n, cs, a, required) && Rest(bs, {}) && Rest(cs, {})
    ensures Granted(LiveOf(bs), LiveOf(cs), a + 8, size) && Untouched(m, n, LiveOf(bs))
  {
    hide Undisturbed, Untouched;
    LiveKept(m, bs, n, cs, {a});
    LiveAt(bs, a);
    LiveAt(cs, a);
    assert LiveOf(bs) - {a} == LiveOf(bs);
    assert LiveOf(cs) == LiveOf(bs)[a := LiveOf(cs)[a]] by {
      Regrow(LiveOf(bs), LiveOf(cs), a);
    }
  }

  lemma Regrow(x: map<int, int>, y: map<int, int>, a: int)
    requires y - {a} == x - {a} && a in y
    ensures y == x[a := y[a]]
  {
    forall b | b in y && b != a
      ensures b in x && x[b] == y[b]
    {
      assert b in y - {a};
      assert (y - {a})[b] == (x - {a})[b];
    }
    forall b | b in x && b != a
      ensures b in y
    {
      assert b in x - {a};
    }
  }

  // --- growing in place, copying ---

  ghost predicate CanGrow(bs: Blocks, h: int, next: int, required: int) {
    && h in bs && next in bs && CanAbsorb(bs, h) && next == h + bs[h].size && !bs[h].free
    && bs[h].hasNext && bs[next].free
    && required % 8 == 0 && bs[h].size < required <= bs[h].size + bs[next].size
  }

  /** The live block at `h` has at least `required` bytes now and its old payload. */
  ghost predicate Extended(m: Memory, bs: Blocks, n: Memory, cs: Blocks, h: int, required: int) {
    && h in bs && h in cs && !cs[h].free && required <= cs[h].size < required + MIN_SIZE
    && Undisturbed(m, bs, n, cs, {h})
    && Same(m, n, h + 8, h + bs[h].size - 8)
  }

  /** The used block at `h` has taken in the free one at `next`. */
  ghost predicate TookIn(m: Memory, bs: Blocks, n: Memory, cs: Blocks, h: int, next: int) {
    && h in bs && h in cs && next in bs && !cs[h].free && cs[h].link.Off? && cs[h].size == bs[h].size + bs[next].size
    && Undisturbed(m, bs, n, cs, {h}) && Same(m, n, h + 8, h + bs[h].size - 8)
  }

  lemma InnerTwice(m: Memory, n: Memory, p: Memory, h: int, s: int, t: int)
    requires Same(m, n, h + 8, h + s - 8) && Same(n, p, h + 8, h + t - 8) && s <= t
    ensures Same(m, p, h + 8, h + s - 8)
  {
  }

  /** Writing the footer of a used block again. */
  lemma SealWrites(m: Memory, bs: Blocks, fl: seq<int>, xs: set<int>, last: int, h: int)
    requires h in bs && !bs[h].free && bs[h].link.Off? && Sound(m, bs, fl, xs, last)
    ensures Sealed(m, bs, fl, xs, last, h, Stamp(m, h, Marked(bs[h], false)))
  {
    hide Ground, Chain, Rest, Ended, Undisturbed;
    Header(m, bs, h);
    SoundFree(m, bs, fl, xs, last, h, false);
    assert m[h := m[h]] == m;
  }

  ghost predicate Sealed(m: Memory, bs: Blocks, fl: seq<int>, xs: set<int>, last: int, h: int, n: Memory) {
    && h in bs && h in m && m[h] == HdrOf(bs[h]) && h + bs[h].size - 8 in m
    && n == m[h + bs[h].size - 8 := Ftr(bs[h].size, false)]
    && Sound(n, bs[h := Marked(bs[h], false)], fl, xs - {h}, last)
    && Undisturbed(m, bs, n, bs[h := Marked(bs[h], false)], {h})
    && Same(m, n, h + 8, h + bs[h].size - 8)
  }

  /** The words from `src` on are at `dst` now. */
  ghost predicate Copied(m: Memory, src: int, n: Memory, dst: int, len: int) {
    forall j :: 0 <= j < len && j % 8 == 0 ==> src + j in m && dst + j in n && n[dst + j] == m[src + j]
  }

  lemma CopyStart(m: Memory, src: int, dst: int)
    ensures Outside(m, m, dst, dst) && Copied(m, src, m, dst, 0)
  {
  }

  lemma CopyStep(m: Memory, n: Memory, src: int, dst: int, i: int, len: int)
    requires 0 <= 8 * i < len && len % 8 == 0 && dst % 8 == 0 && src % 8 == 0 && (dst + len <= src || src + len <= dst)
    requires Mapped(m, dst, dst + len) && Mapped(m, src, src + len)
    requires Outside(m, n, dst, dst + 8 * i) && Copied(m, src, n, dst, 8 * i)
    ensures src + 8 * i in n && dst + 8 * i in n
    ensures Outside(m, n[dst + 8 * i := n[src + 8 * i]], dst, dst + 8 * (i + 1))
    ensures Copied(m, src, n[dst + 8 * i := n[src + 8 * i]], dst, 8 * (i + 1))
  {
    var k := 8 * i;
    CopyCells(m, src, dst, k, len);
    var p := n[dst + k := n[src + k]];
    assert p.Keys == m.Keys;
    forall j | 0 <= j < k + 8 && j % 8 == 0
      ensures src + j in m && dst + j in p && p[dst + j] == m[src + j]
    {
      assert j < k || j == k;
    }
  }

  lemma CopyCells(m: Memory, src: int, dst: int, k: int, len: int)
    requires 0 <= k < len && k % 8 == 0 && dst % 8 == 0 && src % 8 == 0
    requires Mapped(m, dst, dst + len) && Mapped(m, src, src + len)
    ensures src + k in m && dst + k in m
  {
    assert (src + k) % 8 == 0 && (dst + k) % 8 == 0;
  }

  lemma PayloadCell(m: Memory, bs: Blocks, h: int, w: int)
    requires h in bs && h + 8 <= w < h + bs[h].size - 8 && w % 8 == 0 && Ground(m, bs)
    ensures w in m
  {
    hide Ground;
    Positive(m, bs, h);
  }

  lemma PayloadWords(m: Memory, bs: Blocks, n: Memory, h: int)
    requires h in bs && BlockWords(m, h, bs[h]) && bs[h].link.Off? && Outside(m, n, h + 8, h + bs[h].size - 8)
    ensures BlockWords(n, h, bs[h]) && Outside(m, n, h, h + bs[h].size)
  {
  }

  lemma PayloadPut(m: Memory, bs: Blocks, n: Memory, h: int)
    requires h in bs && Ground(m, bs) && bs[h].link.Off? && Outside(m, n, h + 8, h + bs[h].size - 8)
    ensures Ground(n, bs) && Undisturbed(m, bs, n, bs, {h})
  {
    hide Spaced, Linked, Tiled, BlockWords, Undisturbed;
    assert n.Keys == m.Keys;
    PayloadWords(m, bs, n, h);
    Poke(m, n, bs, h, bs[h]);
    PokeKeeps(m, n, bs, h, bs[h]);
    assert bs[h := bs[h]] == bs;
    LayoutKept(m, bs, n, bs);
  }

  // --- resizing ---

  /** The block moved or grew; its old payload is kept and no other block changed. */
  ghost predicate Resized(m: Memory, before: map<int, int>, n: Memory, after: map<int, int>, p: int, q: int,
                          size: int) {
    && p - 8 in before && q - 8 in after && after[q - 8] >= size
    && after[q - 8] >= before[p - 8] && after - {q - 8} == before - {p - 8} && (q == p || q - 8 !in before)
    && Untouched(m, n, before - {p - 8})
    && Copied(m, p, n, q, before[p - 8])
  }

  lemma SelfCopied(m: Memory, bs: Blocks, n: Memory, h: int)
    requires h in bs && Same(m, n, h + 8, h + bs[h].size - 8) && Ground(m, bs)
    ensures Copied(m, h + 8, n, h + 8, bs[h].size - META)
  {
    hide Ground;
    Positive(m, bs, h);
    forall j | 0 <= j < bs[h].size - META && j % 8 == 0
      ensures h + 8 + j in m
    {
      assert (h + 8 + j) % 8 == 0;
    }
  }

  lemma StaysPut(m: Memory, bs: Blocks, fl: seq<int>, last: int, h: int, size: int)
    requires h in bs && !bs[h].free && size <= bs[h].size - META && Sound(m, bs, fl, {}, last)
    ensures Resized(m, LiveOf(bs), m, LiveOf(bs), h + 8, h + 8, size)
  {
    hide Ground, Chain, Ended, Rest, LiveOf, Copied, Untouched;
    LiveAt(bs, h);
    SelfCopied(m, bs, m, h);
    UntouchedRefl(m, LiveOf(bs) - {h});
  }

  lemma GrewInPlace(m: Memory, bs: Blocks, n: Memory, cs: Blocks, fl: seq<int>, last: int, h: int, required: int,
                    size: int)
    requires h in bs && !bs[h].free && Extended(m, bs, n, cs, h, required) && required >= size + META
             && required >= bs[h].size && Rest(bs, {}) && Rest(cs, {}) && Ground(m, bs)
    ensures Resized(m, LiveOf(bs), n, LiveOf(cs), h + 8, h + 8, size)
  {
    hide Ground, Rest, LiveOf, Copied, Untouched, Undisturbed, Same;
    LiveAt(bs, h);
    LiveAt(cs, h);
    SelfCopied(m, bs, n, h);
    LiveKept(m, bs, n, cs, {h});
  }

  ghost predicate Separate(m: Memory, bs: Blocks, a: int, b: int) {
    && a in bs && b in bs && a % 8 == 0 && b % 8 == 0 && bs[a].size % 8 == 0
    && (a + bs[a].size <= b || b + bs[b].size <= a)
    && Mapped(m, a + 8, a + bs[a].size) && Mapped(m, b + 8, b + bs[b].size)
  }

  /** Live payloads are disjoint, aligned and mapped. */
  lemma Disjoint(m: Memory, bs: Blocks, fl: seq<int>, last: int, a: int, b: int)
    requires a in bs && b in bs && a != b && Sound(m, bs, fl, {}, last)
    ensures Separate(m, bs, a, b)
  {
    hide Chain, Ended, Rest, Linked, Tiled;
    assert Apart(bs, a, b) && Apart(bs, b, a);
    Sizes(m, bs, a);
    Sizes(m, bs, b);
  }

  lemma MappedPart(m: Memory, lo: int, hi: int, to: int)
    requires Mapped(m, lo, hi) && to <= hi
    ensures Mapped(m, lo, to)
  {
  }

  lemma PayloadSound(m: Memory, bs: Blocks, n: Memory, fl: seq<int>, last: int, h: int, len: int)
    requires h in bs && !bs[h].free && 0 <= len <= bs[h].size - META && Outside(m, n, h + 8, h + 8 + len)
             && Sound(m, bs, fl, {}, last)
    ensures Sound(n, bs, fl, {}, last) && Untouched(m, n, LiveOf(bs) - {h})
  {
    hide Ground, Chain, Ended, Undisturbed, Untouched, LiveOf;
    PayloadPut(m, bs, n, h);
    LiveKept(m, bs, n, bs, {h});
  }

  lemma MovedAll(m0: Memory, l0: map<int, int>, m1: Memory, l1: map<int, int>, m2: Memory, m3: Memory,
                 l3: map<int, int>, p: int, q: int, size: nat)
    requires p - 8 in l0 && Granted(l0, l1, q, size) && q != p && l3 == l1 - {p - 8}
    requires Untouched(m0, m1, l0) && Untouched(m1, m2, l1 - {q - 8}) && Untouched(m2, m3, l3)
    requires Copied(m1, p, m2, q, l0[p - 8]) && l0[p - 8] <= size
    requires Copied(m0, p, m0, p, l0[p - 8])
    ensures Resized(m0, l0, m3, l3, p, q, size)
  {
    forall b | b in l0 - {p - 8}
      ensures Same(m0, m3, b + 8, b + 8 + l0[b])
    {
      assert b in l1 - {q - 8} && b in l3;
      assert Same(m0, m1, b + 8, b + 8 + l0[b]);
      assert Same(m1, m2, b + 8, b + 8 + l0[b]);
      assert Same(m2, m3, b + 8, b + 8 + l0[b]);
    }
    assert Same(m0, m1, p, p + l0[p - 8]);
    assert q - 8 in l3 && Same(m2, m3, q, q + l3[q - 8]);
    assert l3 - {q - 8} == l0 - {p - 8};
  }

  // --- runs of requests ---

  /** What a client may ask: a new block, or to free, resize or write to its k-th one. */
  datatype Request = Allocate(size: nat) | Release(k: nat) | Resize(k: nat, size: nat)
                   | Write(k: nat, offset: nat, v: Word)

  /** What the client knows of a block: the size it asked for last, and the words it has
      written by offset. */
  datatype Note = Note(asked: nat, wrote: map<int, Word>)

  /** The client's books: a pointer, null ones included, and a note for each block it has had. */
  datatype Client = Client(held: seq<int>, notes: seq<Note>)

  const NOTHING := Note(0, map[])

  /** What the client knows after the answer `p` to a request. A refused resize leaves the
      block as it was; other answers to a resize are the block's new address. */
  function Tell(r: Request, p: int, c: Client): Client {
    match r
    case Allocate(size) => Client(c.held + [p], c.notes + [Note(size, map[])])
    case Release(k) =>
      if k < |c.held| && k < |c.notes| then Client(c.held[k := 0], c.notes[k := NOTHING]) else c
    case Resize(k, size) =>
      if k >= |c.held| || k >= |c.notes| || (p == 0 && size != 0) then c
      else if p == 0 then Client(c.held[k := 0], c.notes[k := NOTHING])
      else if c.held[k] == 0 then Client(c.held[k := p], c.notes[k := Note(size, map[])])
      else Client(c.held[k := p], c.notes[k := c.notes[k].(asked := size)])
    case Write(k, offset, v) =>
      if k < |c.held| && k < |c.notes| && c.held[k] != 0 && offset % 8 == 0 && offset < c.notes[k].asked
      then c.(notes := c.notes[k := c.notes[k].(wrote := c.notes[k].wrote[offset := v])])
      else c
  }

  /** What the client knows after a script, given the answers. */
  function Told(script: seq<Request>, trace: seq<int>): Client
    requires |trace| == |script|
  {
    var n := |script| - 1;
    if script == [] then Client([], []) else Tell(script[n], trace[n], Told(script[..n], trace[..n]))
  }

  /** A size that only the system can deny. */
  predicate Obtainable(size: nat) {
    BlockSize(size).Some? && PagesFor(BlockSize(size).value) <= MAX_PAGES
  }

  /** A block is got when it is to be had, and none for a size that is out of bounds. */
  ghost predicate Answered(r: Request, c: Client, got: int) {
    match r
    case Allocate(size) => (Obtainable(size) ==> got != 0) && (BlockSize(size).None? ==> got == 0)
    case Resize(k, size) => k < |c.held| ==> (Obtainable(size) ==> got != 0) && (BlockSize(size).None? ==> got == 0)
    case _ => true
  }

  ghost predicate AllAnswered(script: seq<Request>, trace: seq<int>)
    requires |trace| <= |script|
  {
    forall i :: 0 <= i < |trace| ==> Answered(script[i], Told(script[..i], trace[..i]), trace[i])
  }

  lemma NothingAsked(script: seq<Request>)
    ensures AllAnswered(script, [])
  {
  }

  lemma AnsweredMore(script: seq<Request>, trace: seq<int>, p: int)
    requires |trace| < |script| && AllAnswered(script, trace)
    requires Answered(script[|trace|], Told(script[..|trace|], trace), p)
    ensures AllAnswered(script, trace + [p])
  {
    hide Told, Answered;
    var now := trace + [p];
    forall i | 0 <= i < |now|
      ensures Answered(script[i], Told(script[..i], now[..i]), now[i])
    {
      assert now[..i] == trace[..i];
      assert i == |trace| ==> trace[..i] == trace;
    }
  }

  lemma ToldNone()
    ensures Told([], []) == Client([], [])
  {
  }

  lemma ToldMore(script: seq<Request>, trace: seq<int>, i: nat, p: int)
    requires i < |script| && |trace| == i
    ensures Told(script[..i + 1], trace + [p]) == Tell(script[i], p, Told(script[..i], trace))
  {
    hide Tell;
    assert script[..i + 1][..i] == script[..i] && (trace + [p])[..i] == trace;
  }

  ghost predicate WroteAt(p: int, note: Note, cap: int, m: Memory, off: int)
    requires off in note.wrote
  {
    0 <= off < cap && off % 8 == 0 && p + off in m && m[p + off] == note.wrote[off]
  }

  /** The block is as large as asked for and holds what was written. */
  ghost predicate Safe(p: int, note: Note, live: map<int, int>, m: Memory) {
    p == 0 || (p - 8 in live && live[p - 8] >= note.asked
               && forall off :: off in note.wrote ==> WroteAt(p, note, live[p - 8], m, off))
  }

  ghost predicate AllSafe(held: seq<int>, notes: seq<Note>, live: map<int, int>, m: Memory) {
    |notes| == |held| && forall k :: 0 <= k < |held| ==> Safe(held[k], notes[k], live, m)
  }

  lemma SafeFrame(p: int, note: Note, l0: map<int, int>, m: Memory, live: map<int, int>, n: Memory)
    requires Safe(p, note, l0, m)
    requires p == 0 || (p - 8 in live && p - 8 in l0 && live[p - 8] == l0[p - 8] && Same(m, n, p, p + l0[p - 8]))
    ensures Safe(p, note, live, n)
  {
    if p != 0 {
      forall off | off in note.wrote
        ensures WroteAt(p, note, live[p - 8], n, off)
      {
        assert WroteAt(p, note, l0[p - 8], m, off);
      }
    }
  }

  /** Blocks that stay live with their capacity and payload stay safe. */
  lemma SafeOthers(held: seq<int>, notes: seq<Note>, l0: map<int, int>, m: Memory, live: map<int, int>, n: Memory,
                   kept: map<int, int>, k: int)
    requires AllSafe(held, notes, l0, m) && Untouched(m, n, kept)
    requires forall a :: a in kept ==> a in l0 && a in live && kept[a] == l0[a] && kept[a] == live[a]
    requires forall j :: 0 <= j < |held| && j != k ==> held[j] == 0 || held[j] - 8 in kept
    ensures forall j :: 0 <= j < |held| && j != k ==> Safe(held[j], notes[j], live, n)
  {
    hide Same;
    forall j | 0 <= j < |held| && j != k
      ensures Safe(held[j], notes[j], live, n)
    {
      assert Safe(held[j], notes[j], l0, m);
      if held[j] != 0 {
        assert Same(m, n, held[j] - 8 + 8, held[j] - 8 + 8 + kept[held[j] - 8]);
      }
      SafeFrame(held[j], notes[j], l0, m, live, n);
    }
  }

  /** The held pointers other than the k-th are other live blocks. */
  lemma HoldsOthers(held: seq<int>, live: map<int, int>, k: nat)
    requires Holds(held, live) && k < |held|
    ensures forall j :: 0 <= j < |held| && j != k ==> held[j] == 0 || (held[j] - 8 in live && held[j] != held[k])
  {
    forall j | 0 <= j < |held| && j != k && held[j] != 0
      ensures held[j] - 8 in live && held[j] != held[k]
    {
      assert Pointing(held, live, j) && HeldAt(held, j, held[j]);
      assert held[k] == held[j] ==> HeldAt(held, k, held[j]);
    }
  }

  lemma SafeAt(held: seq<int>, notes: seq<Note>, live: map<int, int>, m: Memory, k: nat)
    requires AllSafe(held, notes, live, m) && k < |held| && held[k] != 0
    ensures |notes| == |held| && held[k] - 8 in live && live[held[k] - 8] >= notes[k].asked
  {
    assert Safe(held[k], notes[k], live, m);
  }

  lemma HoldsEvery(held: seq<int>, live: map<int, int>)
    requires Holds(held, live)
    ensures forall j :: 0 <= j < |held| ==> held[j] == 0 || held[j] - 8 in live
  {
    forall j | 0 <= j < |held|
      ensures held[j] == 0 || held[j] - 8 in live
    {
      assert Pointing(held, live, j);
    }
  }

  /** A new block, or none. */
  lemma SafeGrant(held: seq<int>, notes: seq<Note>, l0: map<int, int>, m: Memory, live: map<int, int>, n: Memory,
                  p: int, size: nat)
    requires Holds(held, l0) && AllSafe(held, notes, l0, m) && Untouched(m, n, l0)
    requires if p == 0 then live == l0 else Granted(l0, live, p, size)
    ensures AllSafe(held, notes, live, n) && Safe(p, Note(size, map[]), live, n)
  {
    hide Holds, Untouched;
    HoldsEvery(held, l0);
    SafeOthers(held, notes, l0, m, live, n, l0, -1);
  }

  lemma SafeDrop(held: seq<int>, notes: seq<Note>, l0: map<int, int>, m: Memory, live: map<int, int>, n: Memory, k: nat)
    requires Holds(held, l0) && AllSafe(held, notes, l0, m) && k < |held| && Untouched(m, n, live)
    requires live == if held[k] == 0 then l0 else l0 - {held[k] - 8}
    ensures AllSafe(held[k := 0], notes[k := Note(0, map[])], live, n)
  {
    hide Holds, Untouched;
    HoldsOthers(held, l0, k);
    SafeOthers(held, notes, l0, m, live, n, live, k);
  }

  /** A block that moved or grew. */
  lemma SafeResized(held: seq<int>, notes: seq<Note>, l0: map<int, int>, m: Memory, live: map<int, int>, n: Memory,
                    k: nat, q: int, size: nat)
    requires Holds(held, l0) && AllSafe(held, notes, l0, m) && k < |held| && held[k] != 0 && q != 0
    requires Resized(m, l0, n, live, held[k], q, size)
    ensures AllSafe(held[k := q], notes[k := notes[k].(asked := size)], live, n)
  {
    hide Holds, Untouched;
    var p := held[k];
    HoldsOthers(held, l0, k);
    var kept := l0 - {p - 8};
    assert forall a :: a in kept ==> a in live - {q - 8} && (live - {q - 8})[a] == kept[a];
    SafeOthers(held, notes, l0, m, live, n, kept, k);
    var note := notes[k];
    assert Safe(p, note, l0, m);
    forall off | off in note.wrote
      ensures WroteAt(q, note.(asked := size), live[q - 8], n, off)
    {
      assert WroteAt(p, note, l0[p - 8], m, off);
    }
  }

  /** A word written inside the size asked for. */
  lemma SafeWrite(held: seq<int>, notes: seq<Note>, live: map<int, int>, m: Memory, k: nat, off: nat, v: Word)
    requires Holds(held, live) && AllSafe(held, notes, live, m) && k < |held| && held[k] != 0
    requires off % 8 == 0 && off < notes[k].asked && held[k] + off in m
    requires Untouched(m, m[held[k] + off := v], live - {held[k] - 8})
    ensures AllSafe(held, notes[k := notes[k].(wrote := notes[k].wrote[off := v])], live, m[held[k] + off := v])
  {
    hide Holds, Untouched;
    var p, n := held[k], m[held[k] + off := v];
    HoldsOthers(held, live, k);
    SafeOthers(held, notes, live, m, live, n, live - {p - 8}, k);
    var note := notes[k].(wrote := notes[k].wrote[off := v]);
    assert Safe(p, notes[k], live, m);
    forall o | o in note.wrote
      ensures WroteAt(p, note, live[p - 8], n, o)
    {
      if o != off {
        assert WroteAt(p, notes[k], live[p - 8], m, o);
      }
    }
  }

  ghost predicate Pointing(held: seq<int>, live: map<int, int>, k: int)
    requires 0 <= k < |held|
  {
    held[k] == 0 || held[k] - 8 in live
  }

  ghost predicate HeldAt(held: seq<int>, k: int, p: int) {
    0 <= k < |held| && held[k] == p && p != 0
  }

  ghost predicate Owned(held: seq<int>, p: int) {
    exists k :: HeldAt(held, k, p)
  }

  /** The client's pointers, null ones aside, are exactly the live blocks, each once. */
  ghost predicate Holds(held: seq<int>, live: map<int, int>) {
    && (forall k :: 0 <= k < |held| ==> Pointing(held, live, k))
    && (forall j, k, p :: HeldAt(held, j, p) && HeldAt(held, k, p) ==> j == k)
    && (forall a :: a in live ==> Owned(held, a + 8))
  }

  lemma HoldsNone()
    ensures Holds([], map[])
  {
  }

  lemma HoldsAt(held: seq<int>, live: map<int, int>, k: nat)
    requires Holds(held, live) && k < |held|
    ensures held[k] == 0 || held[k] - 8 in live
  {
    assert Pointing(held, live, k);
  }

  lemma HoldsNull(held: seq<int>, live: map<int, int>)
    requires Holds(held, live)
    ensures Holds(held + [0], live)
  {
    var now := held + [0];
    forall k | 0 <= k < |now|
      ensures Pointing(now, live, k)
    {
      assert k < |held| ==> Pointing(held, live, k);
    }
    forall j, k, p | HeldAt(now, j, p) && HeldAt(now, k, p)
      ensures j == k
    {
      assert HeldAt(held, j, p) && HeldAt(held, k, p);
    }
    forall a | a in live
      ensures Owned(now, a + 8)
    {
      var i :| HeldAt(held, i, a + 8);
      assert HeldAt(now, i, a + 8);
    }
  }

  lemma HoldsGrant(held: seq<int>, l0: map<int, int>, live: map<int, int>, p: int, size: nat)
    requires Holds(held, l0) && if p == 0 then live == l0 else Granted(l0, live, p, size)
    ensures Holds(held + [p], live)
  {
    hide Holds;
    HoldsNull(held, l0);
    if p != 0 {
      HoldsPut(held + [0], l0, live, |held|, p);
      assert (held + [0])[|held| := p] == held + [p];
    }
  }

  lemma HoldsDrop(held: seq<int>, live: map<int, int>, k: nat)
    requires Holds(held, live) && k < |held|
    ensures Holds(held[k := 0], if held[k] == 0 then live else live - {held[k] - 8})
  {
    var now, rest := held[k := 0], if held[k] == 0 then live else live - {held[k] - 8};
    forall j | 0 <= j < |now|
      ensures Pointing(now, rest, j)
    {
      assert Pointing(held, live, j);
      assert held[j] != 0 && j != k ==> HeldAt(held, j, held[j]) && (held[j] == held[k] ==> HeldAt(held, k, held[j]));
    }
    forall i, j, p | HeldAt(now, i, p) && HeldAt(now, j, p)
      ensures i == j
    {
      assert HeldAt(held, i, p) && HeldAt(held, j, p);
    }
    forall a | a in rest
      ensures Owned(now, a + 8)
    {
      assert Owned(held, a + 8);
      var i :| HeldAt(held, i, a + 8);
      assert HeldAt(now, i, a + 8);
    }
  }

  lemma HoldsResize(held: seq<int>, m: Memory, l0: map<int, int>, n: Memory, live: map<int, int>, k: nat, q: int,
                    size: nat)
    requires Holds(held, l0) && k < |held|
    requires held[k] == 0 ==> if q == 0 then live == l0 else Granted(l0, live, q, size)
    requires held[k] != 0 && size == 0 ==> q == 0 && live == l0 - {held[k] - 8}
    requires held[k] != 0 && size != 0 && q == 0 ==> live == l0
    requires held[k] != 0 && size != 0 && q != 0 ==> Resized(m, l0, n, live, held[k], q, size)
    ensures Holds(held[k := if q == 0 && size != 0 then held[k] else q], live)
  {
    hide Holds;
    var now := held[k := if q == 0 && size != 0 then held[k] else q];
    if q == 0 && (size != 0 || held[k] == 0) {
      assert now == held;
    } else if q == 0 {
      HoldsDrop(held, l0, k);
    } else if held[k] == 0 {
      HoldsPut(held, l0, live, k, q);
    } else {
      HoldsDrop(held, l0, k);
      ResizedKeys(m, l0, n, live, held[k], q, size);
      HoldsPut(held[k := 0], l0 - {held[k] - 8}, live, k, q);
      assert held[k := 0][k := q] == now;
    }
  }

  lemma ResizedKeys(m: Memory, l0: map<int, int>, n: Memory, live: map<int, int>, p: int, q: int, size: int)
    requires Resized(m, l0, n, live, p, q, size)
    ensures q - 8 !in l0 - {p - 8} && live.Keys == (l0 - {p - 8}).Keys + {q - 8}
  {
    assert (live - {q - 8}).Keys == (l0 - {p - 8}).Keys;
    assert live.Keys == (live - {q - 8}).Keys + {q - 8};
  }

  lemma HoldsPut(held: seq<int>, l0: map<int, int>, live: map<int, int>, k: nat, q: int)
    requires Holds(held, l0) && k < |held| && held[k] == 0 && q != 0 && q - 8 !in l0 && live.Keys == l0.Keys + {q - 8}
    ensures Holds(held[k := q], live)
  {
    var now := held[k := q];
    forall j | 0 <= j < |now|
      ensures Pointing(now, live, j)
    {
      assert Pointing(held, l0, j);
    }
    forall i, j, p | HeldAt(now, i, p) && HeldAt(now, j, p)
      ensures i == j
    {
      assert Pointing(held, l0, i) && Pointing(held, l0, j);
      assert p != q ==> HeldAt(held, i, p) && HeldAt(held, j, p);
    }
    forall a | a in live
      ensures Owned(now, a + 8)
    {
      if a == q - 8 {
        assert HeldAt(now, k, a + 8);
      } else {
        assert Owned(held, a + 8);
        var i :| HeldAt(held, i, a + 8);
        assert HeldAt(now, i, a + 8);
      }
    }
  }

  lemma ListedFree(m: Memory, bs: Blocks, fl: seq<int>, last: int, i: int)
    requires Sound(m, bs, fl, {}, last) && 0 <= i < |fl|
    ensures fl[i] in bs && bs[fl[i]].free
  {
    hide Ground, Ended;
    ChainAt(bs, fl, i);
  }

  /** Every mapped word lies in exactly one block. */
  lemma TilesOnce(m: Memory, bs: Blocks, fl: seq<int>, last: int, w: int)
    requires Sound(m, bs, fl, {}, last) && w in m
    ensures exists a :: Sole(bs, a, w)
  {
    hide Chain, Rest, Ended, Words, Linked;
    assert Covered(bs, w);
    var a :| a in bs && a <= w < a + bs[a].size;
    forall b | b in bs && b <= w < b + bs[b].size
      ensures b == a
    {
      assert Apart(bs, a, b) && Apart(bs, b, a);
    }
    assert Sole(bs, a, w);
  }

  ghost predicate Sole(bs: Blocks, a: int, w: int) {
    a in bs && a <= w < a + bs[a].size && forall b :: b in bs && b <= w < b + bs[b].size ==> b == a
  }
}
