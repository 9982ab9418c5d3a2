/**
 src/heap.c: the allocator object. The methods write the words that the source
 writes, in its order, and every read and write is of a mapped word.
 */
module HeapAlloc {
  import opened Options
  import opened HeapSpec
  import opened HeapBlocks
  import opened HeapSound
  import opened HeapSteps
  import opened HeapTight

  class SdbHeap {
    var mem: Memory
    var lastAddress: int
    var freeStart: int
    var lastMapped: nat
    ghost var bs: Blocks
    ghost var fl: seq<int>
    ghost var peak: int   // the most bytes that have been mapped at once
    ghost var denied: nat // how often the system has denied new pages

    method WriteFooter(h: int)
      requires h in mem && mem[h].Hdr? && h + mem[h].size - 8 in mem
      modifies this`mem
      ensures mem == old(mem)[h + old(mem)[h].size - 8 := Ftr(old(mem)[h].size, old(mem)[h].free)]
    {
      mem := mem[h + mem[h].size - 8 := Ftr(mem[h].size, mem[h].free)];
    }

    method SetFree(h: int, v: bool)
      requires h in bs && Ground(mem, bs)
      modifies this`mem
      ensures mem == Stamp(old(mem), h, Marked(old(bs[h]), v)) && mem.Keys == old(mem).Keys
    {
      hide Ground;
      StampKeys(mem, bs, h, Marked(bs[h], v));
      Header(mem, bs, h);
      mem := mem[h := mem[h].(free := v)];
      WriteFooter(h);
    }

    /** `remove_from_free_list`. */
    method RemoveFromFreeList(a: int, ghost xs: set<int>, ghost last: int)
      requires Sound(mem, bs, fl, xs, last) && freeStart == At(fl, 0) && a in bs && bs[a].link.On?
      modifies this`mem, this`bs, this`fl, this`freeStart
      ensures Sound(mem, bs, fl, xs - {a}, last) && freeStart == At(fl, 0)
      ensures Kin(old(bs), bs, a) && a in bs && bs[a] == Marked(old(bs)[a], false).(link := Off)
      ensures Undisturbed(old(mem), old(bs), mem, bs, {a}) && mem.Keys == old(mem).Keys
    {
      hide Ground, Chain, Rest, Ended, Undisturbed, Stamp, LinkMemory, Removed, Kin;
      ghost var i := Position(bs, fl, a);
      RemoveSteps(mem, bs, fl, xs, last, a, i);
      SetFree(a, false);
      bs := bs[a := Marked(bs[a], false)];
      LinkedAt(mem, bs, fl, i);
      UnlinkWrites(mem, bs, fl, i);
      LinkKeys(mem, bs, fl, i);
      var next := mem[a + 8].addr;
      var prev := mem[a + 16].addr;
      if prev == 0 {
        if next == 0 {
          freeStart := 0;
        } else {
          freeStart := next;
          mem := mem[next + 8 := Ptr(0)];
        }
      } else {
        if next == 0 {
          mem := mem[prev := Ptr(0)];
        } else {
          mem := mem[prev := Ptr(next)];
          mem := mem[next + 8 := Ptr(prev)];
        }
      }
      bs := Removed(bs, fl, i);
      fl := Drop(fl, i);
    }

    /** `append_to_free_list`. */
    method AppendToFreeList(a: int, ghost xs: set<int>, ghost last: int)
      requires Sound(mem, bs, fl, xs, last) && freeStart == At(fl, 0) && a in bs && bs[a].link.Off?
      modifies this`mem, this`bs, this`fl, this`freeStart
      ensures Sound(mem, bs, fl, xs - {a}, last) && freeStart == At(fl, 0)
      ensures Kin(old(bs), bs, a) && a in bs && bs[a] == Marked(old(bs)[a], true).(link := bs[a].link) && bs[a].link.On?
      ensures Undisturbed(old(mem), old(bs), mem, bs, {a}) && fl == [a] + old(fl) && mem.Keys == old(mem).Keys
    {
      hide Ground, Chain, Rest, Ended, Undisturbed, Stamp, PushMemory, Pushed, Kin, At, PriorPut;
      AppendSteps(mem, bs, fl, xs, last, a);
      SetFree(a, true);
      bs := bs[a := Marked(bs[a], true)];
      PushWrites(mem, bs, fl, a);
      PushKeys(mem, bs, fl, a);
      PushOrder(mem, a, freeStart);
      mem := mem[a + 8 := Ptr(0)][a + 16 := Ptr(0)];
      if freeStart != 0 {
        mem := mem[a + 8 := Ptr(freeStart)];
        mem := mem[a + 16 := Ptr(0)];
        mem := mem[freeStart + 8 := Ptr(a + 8)];
        freeStart := a + 8;
      } else {
        freeStart := a + 8;
        mem := mem[a + 16 := Ptr(0)];
        mem := mem[a + 8 := Ptr(0)];
      }
      AtHead(fl, a);
      bs := Pushed(bs, fl, a);
      fl := [a] + fl;
    }

    /** `split`: nothing happens when the rest is too small for a block. */
    method Split(a: int, total: int, requested: int, ghost xs: set<int>, ghost last: int)
      requires Sound(mem, bs, fl, xs, last) && freeStart == At(fl, 0) && a in bs && a + requested !in xs
      requires total == bs[a].size && requested % 8 == 0 && MIN_SIZE <= requested <= total
      modifies this`mem, this`bs, this`fl, this`freeStart
      ensures Sound(mem, bs, fl, xs, last) && freeStart == At(fl, 0)
      ensures SplitDone(old(mem), old(bs), mem, bs, a, total, requested)
      ensures Undisturbed(old(mem), old(bs), mem, bs, {a}) && mem.Keys == old(mem).Keys
    {
      hide Ground, Chain, Rest, Ended, Undisturbed, Cut, CutMemory, SplitOf, Kin, Same, KeptAt;
      var newBlock := a + requested;
      var blockSize := total - requested;
      if blockSize < MIN_SIZE {
        Unchanged(mem, bs, a, a + 8, newBlock - 8);
        return;
      }
      ghost var m0, bs0, fl0 := mem, bs, fl;
      SoundCut(mem, bs, fl, xs, last, a, requested);
      CutBlock(a, total, requested);
      ghost var m1, bs1 := mem, bs;
      CutFresh(bs0, a, requested, m0);
      AppendToFreeList(newBlock, xs + {newBlock}, last);
      assert xs + {newBlock} - {newBlock} == xs;
      SplitKeeps(m0, bs0, m1, bs1, mem, bs, a, requested);
    }

    /** The tags that `split` writes. */
    method CutBlock(a: int, total: int, requested: int)
      requires Ground(mem, bs) && CanCut(bs, a, requested) && total == bs[a].size
      modifies this`mem, this`bs
      ensures mem == CutMemory(old(mem), old(bs), a, requested) && bs == Cut(old(bs), a, requested)
      ensures mem.Keys == old(mem).Keys
    {
      hide Ground, Cut, CutMemory;
      CutWrites(mem, bs, a, requested);
      CutWordsKept(mem, bs, a, requested);
      Header(mem, bs, a);
      var newBlock := a + requested;
      var hadNext := mem[a].hasNext;
      mem := mem[a := mem[a].(size := requested, hasNext := true)];
      WriteFooter(a);
      mem := mem[newBlock := Hdr(total - requested, true, true, hadNext)];
      WriteFooter(newBlock);
      if mem[newBlock].hasNext {
        var next := newBlock + mem[newBlock].size;
        mem := mem[next := mem[next].(hasPrev := true)];
      }
      bs := Cut(bs, a, requested);
    }

    /** The half of `coalesce` that looks left. */
    method CoalescePrev(a: int, ghost last: int) returns (merged: int)
      requires Sound(mem, bs, fl, {}, last) && freeStart == At(fl, 0) && a in bs && bs[a].free
      modifies this`mem, this`bs, this`fl, this`freeStart
      ensures Sound(mem, bs, fl, {merged}, last) && freeStart == At(fl, 0)
      ensures merged in bs && bs[merged].link.On? && Undisturbed(old(mem), old(bs), mem, bs, {})
      ensures LeftDone(old(mem), old(bs), mem, bs, a, merged) && mem.Keys == old(mem).Keys
    {
      hide Ground, Chain, Ended, Undisturbed, Fuse, Kin, CanAbsorb, Neighbours, Rest;
      merged := a;
      UndisturbedRefl(mem, bs);
      RestMore(bs, a);
      Header(mem, bs, a);
      if mem[a].hasPrev {
        LeftFooter(mem, bs, a);
        var footer := mem[a - 8];
        var prev := a - footer.span;
        if footer.vacant {
          if mem[prev].size + mem[a].size <= INT_MAX {
            LeftAbsorbs(mem, bs, a, prev);
            ghost var m0, bs0 := mem, bs;
            RemoveFromFreeList(a, {}, last);
            assert {} - {a} == {};
            FuseStep(m0, bs0, mem, bs, fl, {}, last, prev, a);
            mem := mem[prev := mem[prev].(size := mem[prev].size + mem[a].size, hasNext := mem[a].hasNext)];
            bs := Fuse(bs, prev);
            merged := prev;
            assert {} + {prev} == {prev};
          }
        }
      }
    }

    /** The half of `coalesce` that looks right. */
    method CoalesceNext(h: int, ghost last: int)
      requires Sound(mem, bs, fl, {h}, last) && freeStart == At(fl, 0) && h in bs && bs[h].link.On?
      modifies this`mem, this`bs, this`fl, this`freeStart
      ensures Sound(mem, bs, fl, {h}, last) && freeStart == At(fl, 0)
      ensures h in bs && bs[h].link.On? && Undisturbed(old(mem), old(bs), mem, bs, {})
      ensures RightDone(old(mem), old(bs), mem, bs, h) && mem.Keys == old(mem).Keys
    {
      hide Ground, Chain, Ended, Undisturbed, Fuse, Kin, CanAbsorb, Neighbours, Rest;
      UndisturbedRefl(mem, bs);
      Header(mem, bs, h);
      if mem[h].hasNext {
        var next := h + mem[h].size;
        RightHeader(mem, bs, h, {h});
        if mem[next].free && mem[h].size + mem[next].size <= INT_MAX {
          Absorb(h, next, {h}, last);
          assert {h} - {next} + {h} == {h};
        }
      }
    }

    /** Takes the free right neighbour off the list and merges it into `h`. */
    method Absorb(h: int, next: int, ghost xs: set<int>, ghost last: int)
      requires Sound(mem, bs, fl, xs, last) && freeStart == At(fl, 0) && CanAbsorb(bs, h) && next == h + bs[h].size
      modifies this`mem, this`bs, this`fl, this`freeStart
      ensures Sound(mem, bs, fl, xs - {next} + {h}, last) && freeStart == At(fl, 0)
      ensures FuseDone(old(mem), old(bs), mem, bs, h) && mem.Keys == old(mem).Keys
    {
      hide Ground, Chain, Ended, Undisturbed, Fuse, Kin, FuseDone, Neighbours, Rest;
      ghost var m0, bs0 := mem, bs;
      RemoveFromFreeList(next, xs, last);
      FuseStep(m0, bs0, mem, bs, fl, xs - {next}, last, h, next);
      mem := mem[h := mem[h].(size := mem[h].size + mem[next].size, hasNext := mem[next].hasNext)];
      if mem[h].hasNext {
        var after := h + mem[h].size;
        mem := mem[after := mem[after].(hasPrev := true)];
      }
      bs := Fuse(bs, h);
    }

    /** `coalesce`: merges a free block with its free neighbours. */
    method Coalesce(a: int, ghost last: int) returns (merged: int)
      requires Sound(mem, bs, fl, {}, last) && freeStart == At(fl, 0) && a in bs && bs[a].free
      modifies this`mem, this`bs, this`fl, this`freeStart
      ensures Sound(mem, bs, fl, {}, last) && freeStart == At(fl, 0)
      ensures merged in bs && bs[merged].link.On? && Undisturbed(old(mem), old(bs), mem, bs, {})
      ensures Coalesced(old(bs), bs, a, merged) && mem.Keys == old(mem).Keys
      ensures Quiet(old(bs), a) && 8 * |old(mem).Keys| <= INT_MAX ==> Quiet(bs, 0)
    {
      hide Ground, Chain, Ended, Undisturbed, Rest, Stamp, Quiet, LeftDone, RightDone, Coalesced;
      ghost var m0, bs0 := mem, bs;
      merged := CoalescePrev(a, last);
      ghost var m1, bs1 := mem, bs;
      CoalesceNext(merged, last);
      UndisturbedTrans(m0, bs0, m1, bs1, mem, bs, {}, {}, {});
      ghost var m2, bs2 := mem, bs;
      SoundFree(mem, bs, fl, {merged}, last, merged, true);
      SetFree(merged, true);
      bs := bs[merged := Marked(bs[merged], true)];
      assert {merged} - {merged} == {};
      UndisturbedRefl(m2, bs2);
      UndisturbedTrans(m2, bs2, m2, bs2, mem, bs, {}, {merged}, {});
      UndisturbedTrans(m0, bs0, m2, bs2, mem, bs, {}, {}, {});
      CoalescedBoth(m0, bs0, m1, bs1, m2, bs2, a, merged);
      CoalesceKeeps(m0, bs0, m1, bs1, m2, bs2, mem, bs, a, merged);
    }

    /** `unmap`: the block leaves the heap. */
    method Unmap(a: int, size: int)
      requires Sound(mem, bs, fl, {}, lastAddress) && freeStart == At(fl, 0) && a in bs && bs[a].link.On?
               && size == bs[a].size
      requires 1 <= lastMapped <= MAX_PAGES
      modifies this`mem, this`bs, this`fl, this`freeStart, this`lastAddress, this`lastMapped
      ensures Sound(mem, bs, fl, {}, lastAddress) && freeStart == At(fl, 0) && 1 <= lastMapped <= MAX_PAGES
      ensures Undisturbed(old(mem), old(bs), mem, bs, {})
      ensures Released(old(bs), bs, a) && Gone(old(mem), mem, a, a + size)
      ensures Quiet(old(bs), a) ==> Quiet(bs, 0)
    {
      hide Ground, Chain, Ended, Undisturbed, Rest, Kin, Parted, PartedMemory, Without, Quiet, Released, Gone;
      ghost var m0, bs0 := mem, bs;
      RemoveFromFreeList(a, {}, lastAddress);
      assert {} - {a} == {};
      ghost var m1, bs1 := mem, bs;
      SoundUnmap(mem, bs, fl, {}, lastAddress, a);
      PartWrites(mem, bs, a);
      var prev := 0;
      if mem[a].hasPrev {
        prev := a - mem[a - 8].span;
        mem := mem[prev := mem[prev].(hasNext := false)];
      }
      if mem[a].hasNext {
        var next := a + mem[a].size;
        mem := mem[next := mem[next].(hasPrev := false)];
      }
      if lastAddress == a + size {
        lastAddress := if prev != 0 then a else 0;
        if lastAddress == 0 {
          lastMapped := 1;
        }
      }
      mem := Without(mem, a, a + size);
      bs := Parted(bs, a) - {a};
      UndisturbedTrans(m0, bs0, m1, bs1, mem, bs, {a}, {a}, {});
      UnmapKeeps(m0, bs0, m1, bs1, a);
    }

    ghost predicate Valid()
      reads this
    {
      && Sound(mem, bs, fl, {}, lastAddress) && freeStart == At(fl, 0) && 1 <= lastMapped <= MAX_PAGES
      && Tight(mem, bs, peak)
    }

    /** The payload capacity of every live block, by the address of its header. */
    ghost function Live(): map<int, int>
      reads this
    {
      LiveOf(bs)
    }

    /** `sdb_heap_init`. */
    constructor ()
      ensures Valid() && Live() == map[] && mem == map[] && peak == 0 && denied == 0
    {
      mem, lastAddress, freeStart, lastMapped, bs, fl, peak, denied := map[], 0, 0, 1, map[], [], 0, 0;
    }

    /** `sdb_heap_free`. Freeing null or a block that is free already does nothing. */
    method Free(p: int)
      requires Valid() && (p == 0 || p - 8 in bs)
      modifies this
      ensures Valid() && peak == old(peak) && denied == old(denied)
      ensures p == 0 || p - 8 !in old(Live()) ==> mem == old(mem) && bs == old(bs) && fl == old(fl)
      ensures Live() == if p == 0 then old(Live()) else old(Live()) - {p - 8}
      ensures Untouched(old(mem), mem, Live())
    {
      hide Sound, LiveOf, Untouched, Tight;
      UntouchedRefl(mem, LiveOf(bs));
      if p == 0 {
        return;
      }
      var h := p - 8;
      SoundHeader(mem, bs, fl, {}, lastAddress, h);
      LiveAt(bs, h);
      if mem[h].free {
        return;
      }
      Release(h);
    }

    /** What `sdb_heap_free` does to a live block. */
    method Release(h: int)
      requires Valid() && h in bs && !bs[h].free
      modifies this
      ensures Valid() && Live() == old(Live()) - {h} && Untouched(old(mem), mem, Live())
      ensures Undisturbed(old(mem), old(bs), mem, bs, {h}) && peak == old(peak) && denied == old(denied)
    {
      hide Ground, Chain, Rest, Ended, Undisturbed, LiveOf, Untouched, Kin, SplitDone, At, Coalesced, Trimmed, Quiet;
      SoundHeader(mem, bs, fl, {}, lastAddress, h);
      ghost var m0, bs0 := mem, bs;
      AppendToFreeList(h, {}, lastAddress);
      assert {} - {h} == {};
      ghost var m1, bs1 := mem, bs;
      if Quiet(bs0, 0) {
        QuietOne(m0, bs0, h);
        QuietKin(bs0, bs1, h);
      }
      var merged := Coalesce(h, lastAddress);
      TrimPages(merged, m1, bs1);
      ReleaseLive(m0, bs0, m1, bs1, mem, bs, h, fl, lastAddress);
    }

    /** The last part of `sdb_heap_free`: whole pages at a page boundary go back. */
    method TrimPages(h: int, ghost m: Memory, ghost cs: Blocks)
      requires Valid() && h in bs && bs[h].link.On? && Undisturbed(m, cs, mem, bs, {})
      modifies this
      ensures Valid() && Undisturbed(m, cs, mem, bs, {}) && peak == old(peak) && denied == old(denied)
      ensures Trimmed(old(mem), old(bs), mem, bs, h)
    {
      hide Ground, Chain, Rest, Ended, Undisturbed, Kin, At, SplitOf, Quiet, Gone, Same;
      ghost var m0, bs0 := mem, bs;
      SoundHeader(mem, bs, fl, {}, lastAddress, h);
      var size := mem[h].size;
      if size >= PAGE && h % PAGE == 0 {
        var unmapSize := (size / PAGE) * PAGE;
        if unmapSize == size || size - unmapSize >= MIN_SIZE {
          if unmapSize != size {
            PagesAligned(size);
            Split(h, size, unmapSize, {}, lastAddress);
            SplitTrim(m0, bs0, mem, bs, h, size, unmapSize);
            UndisturbedTrans(m, cs, m0, bs0, mem, bs, {}, {}, {});
          }
          ghost var m1, bs1 := mem, bs;
          TrimKeeps(m0, bs0, mem, bs, h, unmapSize);
          Unmap(h, unmapSize);
          UndisturbedTrans(m, cs, m1, bs1, mem, bs, {}, {}, {});
          TrimDone(m0, bs0, m1, bs1, mem, bs, h, unmapSize);
        }
      }
    }

    /** `find_free_block`: the first block of the free list that is large enough. */
    method FindFreeBlock(size: int) returns (p: int)
      requires Valid()
      ensures p == 0 <==> NoneFits(bs, fl, size, |fl|)
      ensures p != 0 ==> FirstFit(bs, fl, size, p)
    {
      hide Sound, At;
      var current := freeStart;
      ghost var i := 0;
      FreeEnd(fl);
      while current != 0
        invariant 0 <= i <= |fl| && current == At(fl, i) && NoneFits(bs, fl, size, i)
        decreases |fl| - i
      {
        FreeAt(mem, bs, fl, {}, lastAddress, i);
        if mem[current - 8].size >= size {
          return current;
        }
        current := mem[current].addr;
        i := i + 1;
      }
      FreeNull(mem, bs, fl, {}, lastAddress, i);
      return 0;
    }

    /** `mmap`: the system may refuse, or grant any region that is not in use. */
    method Mmap(bytes: int) returns (r: Option<int>)
      modifies this`mem, this`peak, this`denied
      ensures denied == old(denied) + if r.None? then 1 else 0
      ensures r.None? ==> mem == old(mem) && peak == old(peak)
      ensures r.Some? ==> peak == Most(old(peak), 8 * |mem.Keys|)
      ensures r.Some? ==> Unused(old(mem), r.value, bytes) && mem == Zeroed(old(mem), r.value, bytes)
    {
      var x: int := *;
      if x > 0 && x % 8 == 0 && forall w :: x <= w < x + bytes ==> w !in mem {
        mem := Zeroed(mem, x, bytes);
        peak := Most(peak, 8 * |mem.Keys|);
        return Some(x);
      }
      denied := denied + 1;
      return None;
    }

    /** `sdb_heap_malloc`, first half: a free block of sufficient size is used. */
    method TakeFree(a: int, required: int)
      requires Valid() && a in bs && bs[a].free && bs[a].size >= required && required % 8 == 0 && required >= MIN_SIZE
      modifies this
      ensures Valid() && lastMapped == old(lastMapped) && peak == old(peak) && denied == old(denied)
      ensures Gained(old(mem), old(bs), mem, bs, a, required)
    {
      hide Ground, Chain, Rest, Ended, Undisturbed, Stamp, Kin, SplitOf, Same, At, Quiet;
      ghost var m0, bs0 := mem, bs;
      SoundHeader(mem, bs, fl, {}, lastAddress, a);
      SoundFree(mem, bs, fl, {}, lastAddress, a, false);
      SetFree(a, false);
      bs := bs[a := Marked(bs[a], false)];
      assert {} + {a} == {a};
      ghost var m1, bs1 := mem, bs;
      SoundHeader(mem, bs, fl, {a}, lastAddress, a);
      Split(a, mem[a].size, required, {a}, lastAddress);
      UndisturbedTrans(m0, bs0, m1, bs1, mem, bs, {a}, {a}, {a});
      SplitSize(m1, bs1, mem, bs, a, bs1[a].size, required);
      ghost var m2, bs2 := mem, bs;
      RemoveFromFreeList(a, {a}, lastAddress);
      assert {a} - {a} == {};
      UndisturbedTrans(m0, bs0, m2, bs2, mem, bs, {a}, {a}, {a});
      if Quiet(bs0, 0) {
        TakeQuiet(m0, bs0, m1, bs1, m2, bs2, mem, bs, a, required);
      }
    }

    /** The new block and the one that ends where it starts become neighbours. */
    method Join(ghost p: int, h: int, ghost last: int)
      requires Sound(mem, bs, fl, {}, last) && h in bs && EndsAt(bs, p, h) && bs[h].prev == 0 && EndsAt(bs, h, last)
      modifies this`mem, this`bs
      ensures Sound(mem, bs, fl, {}, last) && Undisturbed(old(mem), old(bs), mem, bs, {})
      ensures bs == Joined(old(bs), p, h) && mem.Keys == old(mem).Keys
    {
      hide Ground, Chain, Rest, Ended, Undisturbed;
      SoundJoin(mem, bs, fl, last, p, h);
      JoinWrites(mem, bs, fl, last, p, h);
      mem := mem[h := mem[h].(hasPrev := true)];
      var prev := h - mem[h - 8].span;
      mem := mem[prev := mem[prev].(hasNext := true)];
      bs := Joined(bs, p, h);
    }

    /** Header and footer of a new region. */
    method NewRegion(bytes: int) returns (r: Option<int>)
      requires Valid() && bytes % 8 == 0 && MIN_SIZE <= bytes <= INT_MAX
      modifies this`mem, this`bs, this`peak, this`denied
      ensures denied == old(denied) + if r.None? then 1 else 0
      ensures r.None? ==> mem == old(mem) && bs == old(bs) && peak == old(peak)
      ensures r.Some? ==> Sound(mem, bs, fl, {}, r.value + bytes)
                          && NewBlock(old(mem), old(bs), mem, bs, r.value, bytes)
      ensures r.Some? ==> bs == old(bs)[r.value := Region(bytes)]
      ensures r.Some? ==> forall p :: EndsAt(old(bs), p, lastAddress) ==> EndsAt(bs, p, lastAddress) && p != r.value
      ensures r.Some? ==> 8 * |mem.Keys| == 8 * |old(mem).Keys| + bytes && peak == Most(old(peak), 8 * |mem.Keys|)
    {
      hide Ground, Chain, Rest, Undisturbed, Stamp, Zeroed, Unused, At, Quiet, Ended, EndsAt;
      ghost var m0 := mem;
      r := Mmap(bytes);
      if r.Some? {
        var h := r.value;
        SoundMap(m0, bs, fl, lastAddress, h, bytes);
        MapWrites(m0, h, bytes);
        ZeroedCard(m0, h, bytes);
        assert mem.Keys + {h} + {h + bytes - 8} == mem.Keys;
        mem := mem[h := Hdr(bytes, false, false, false)];
        WriteFooter(h);
        bs := bs[h := Region(bytes)];
      }
    }

    /** A new region becomes a block, linked to the last one when it starts where
        that one ended. */
    method MapBlock(bytes: int) returns (r: Option<int>)
      requires Valid() && bytes % 8 == 0 && MIN_SIZE <= bytes <= INT_MAX
      modifies this`mem, this`bs, this`peak, this`denied
      ensures denied == old(denied) + if r.None? then 1 else 0
      ensures r.None? ==> mem == old(mem) && bs == old(bs) && peak == old(peak)
      ensures r.Some? ==> Sound(mem, bs, fl, {}, r.value + bytes)
                          && NewBlock(old(mem), old(bs), mem, bs, r.value, bytes)
      ensures r.Some? ==> 8 * |mem.Keys| == 8 * |old(mem).Keys| + bytes && peak == Most(old(peak), 8 * |mem.Keys|)
      ensures Tight(mem, bs, peak)
    {
      hide Ground, Chain, Rest, Undisturbed, At, Quiet;
      ghost var m0, bs0 := mem, bs;
      r := NewRegion(bytes);
      if r.None? {
        return;
      }
      var h := r.value;
      if Quiet(bs0, 0) {
        QuietMap(m0, bs0, h, bytes);
      }
      if h == lastAddress && lastAddress != 0 {
        ghost var p :| EndsAt(bs0, p, lastAddress);
        ghost var m1, bs1 := mem, bs;
        Join(p, h, h + bytes);
        if Quiet(bs0, 0) {
          QuietJoin(m1, bs1, p, h);
        }
        UndisturbedTrans(m0, bs0, m1, bs1, mem, bs, {h}, {}, {h});
      }
    }

    /** `sdb_heap_malloc`, second half: whole pages from the system, each time at
        least twice as many as the last. */
    method TakeRegion(required: int) returns (p: int)
      requires Valid() && required % 8 == 0 && MIN_SIZE <= required <= INT_MAX
      modifies this
      ensures Valid() && PeakAfter(old(mem), old(peak), peak)
      ensures old(denied) <= denied && (p == 0 <==> PagesFor(required) > MAX_PAGES || denied > old(denied))
      ensures p == 0 ==> bs == old(bs) && mem == old(mem)
      ensures PagesFor(required) <= MAX_PAGES ==> lastMapped == GrowPages(Most(PagesFor(required), old(lastMapped)))
      ensures p != 0 ==> 8 * |mem.Keys| == 8 * |old(mem).Keys| + PAGE * Most(PagesFor(required), old(lastMapped))
      ensures p != 0 ==> Gained(old(mem), old(bs), mem, bs, p - 8, required)
    {
      hide Sound, At, Tight, Undisturbed, PagesFor, GrowPages;
      var pages := PagesFor(required);
      if pages > MAX_PAGES {
        return 0;
      }
      var mapped := ClampPages(if pages > lastMapped then pages else lastMapped);
      lastMapped := GrowPages(mapped);
      PageBytes(mapped);
      EnoughPages(required, pages, mapped);
      ghost var m0 := mem;
      p := MapAndCut(mapped * PAGE, required);
      if peak != old(peak) {
        assert PagesMore(m0, peak, mapped);
      }
    }

    /** A new region, cut to the size asked for. */
    method MapAndCut(bytes: int, required: int) returns (p: int)
      requires Valid() && bytes % 8 == 0 && required % 8 == 0 && MIN_SIZE <= required <= bytes <= INT_MAX
      modifies this
      ensures Valid() && lastMapped == old(lastMapped)
      ensures denied == old(denied) + if p == 0 then 1 else 0
      ensures p == 0 ==> bs == old(bs) && mem == old(mem) && peak == old(peak)
      ensures p != 0 ==> 8 * |mem.Keys| == 8 * |old(mem).Keys| + bytes && peak == Most(old(peak), 8 * |mem.Keys|)
      ensures p != 0 ==> Gained(old(mem), old(bs), mem, bs, p - 8, required)
    {
      hide Ground, Chain, Rest, Ended, Undisturbed, SplitOf, Same, At, Quiet;
      ghost var m0, bs0 := mem, bs;
      var r := MapBlock(bytes);
      if r.None? {
        return 0;
      }
      var h := r.value;
      ghost var m1, bs1 := mem, bs;
      Split(h, bytes, required, {}, h + bytes);
      SplitSize(m1, bs1, mem, bs, h, bytes, required);
      lastAddress := h + bytes;
      UndisturbedTrans(m0, bs0, m1, bs1, mem, bs, {h}, {h}, {h});
      SoundHeader(mem, bs, fl, {}, lastAddress, h);
      if Quiet(bs1, 0) {
        QuietOne(m1, bs1, h);
        CutQuiet(m1, bs1, mem, bs, h, required);
      }
      return h + 8;
    }

    /** `sdb_heap_malloc`. A free block that fits is always used, the first in the list. */
    method Malloc(size: nat) returns (p: int)
      requires Valid()
      modifies this
      ensures Valid() && p % 8 == 0 && PeakAfter(old(mem), old(peak), peak)
      ensures old(denied) <= denied && (p == 0 <==> Refuses(old(bs), old(fl), size, denied > old(denied)))
      ensures BlockSize(size).Some? && !NoneFits(old(bs), old(fl), BlockSize(size).value, |old(fl)|)
              ==> p != 0 && FirstFit(old(bs), old(fl), BlockSize(size).value, p)
      ensures if p == 0 then Live() == old(Live()) else Granted(old(Live()), Live(), p, size)
      ensures Untouched(old(mem), mem, old(Live()))
    {
      hide Ground, Chain, Rest, Ended, Undisturbed, LiveOf, Untouched, At, NoneFits, Tight, PagesMore;
      ghost var m0, bs0 := mem, bs;
      UntouchedRefl(mem, LiveOf(bs));
      var required := BlockSize(size);
      if required.None? {
        return 0;
      }
      var f := FindFreeBlock(required.value);
      if f != 0 {
        FitHeader(mem, bs, fl, {}, lastAddress, required.value, f);
        TakeFree(f - 8, required.value);
        p := f;
      } else {
        p := TakeRegion(required.value);
      }
      if p != 0 {
        LiveGained(m0, bs0, mem, bs, p - 8, required.value, size);
        SoundHeader(mem, bs, fl, {}, lastAddress, p - 8);
      }
    }

    /** Writing to one's own payload is harmless. */
    method Store(p: int, offset: nat, v: Word)
      requires Valid() && p - 8 in Live() && offset % 8 == 0 && offset < Live()[p - 8]
      modifies this`mem
      ensures Valid() && p + offset in old(mem) && mem == old(mem)[p + offset := v] && mem.Keys == old(mem).Keys
      ensures Untouched(old(mem), mem, Live() - {p - 8})
    {
      hide Ground, Chain, Ended, LiveOf, Untouched, Undisturbed;
      LiveAt(bs, p - 8);
      SoundHeader(mem, bs, fl, {}, lastAddress, p - 8);
      PayloadCell(mem, bs, p - 8, p + offset);
      ghost var m := mem;
      mem := mem[p + offset := v];
      PayloadPut(m, bs, mem, p - 8);
      LiveKept(m, bs, mem, bs, {p - 8});
    }

    /** `memcpy` between two payloads, word by word. */
    method CopyWords(dst: int, src: int, n: nat)
      requires n % 8 == 0 && dst % 8 == 0 && src % 8 == 0 && (dst + n <= src || src + n <= dst)
      requires Mapped(mem, dst, dst + n) && Mapped(mem, src, src + n)
      modifies this`mem
      ensures Outside(old(mem), mem, dst, dst + n) && Copied(old(mem), src, mem, dst, n) && mem.Keys == old(mem).Keys
    {
      hide Mapped, Copied;
      var i, words := 0, n / 8;
      CopyStart(mem, src, dst);
      while i < words
        invariant 0 <= i <= words
        invariant Outside(old(mem), mem, dst, dst + 8 * i) && Copied(old(mem), src, mem, dst, 8 * i)
      {
        CopyStep(old(mem), mem, src, dst, i, n);
        mem := mem[dst + 8 * i := mem[src + 8 * i]];
        i := i + 1;
      }
    }

    /** The used block at `h` takes in its free right neighbour. */
    method TakeIn(h: int, next: int, ghost required: int)
      requires CanGrow(bs, h, next, required) && Valid()
      modifies this`mem, this`bs, this`fl, this`freeStart
      ensures Sound(mem, bs, fl, {}, lastAddress) && freeStart == At(fl, 0) && mem.Keys == old(mem).Keys
      ensures TookIn(old(mem), old(bs), mem, bs, h, next)
      ensures Quiet(old(bs), 0) ==> Quiet(bs, h) && NextUsed(bs, h)
    {
      hide Ground, Chain, Rest, Ended, Undisturbed, Stamp, Kin, Same, At, CanAbsorb, Quiet;
      ghost var m0, bs0 := mem, bs;
      SoundHeader(mem, bs, fl, {}, lastAddress, h);
      Absorb(h, next, {}, lastAddress);
      assert {} - {next} + {h} == {h};
      ghost var m1, bs1 := mem, bs;
      SoundHeader(mem, bs, fl, {h}, lastAddress, h);
      SealWrites(mem, bs, fl, {h}, lastAddress, h);
      assert mem.Keys + {h + mem[h].size - 8} == mem.Keys;
      mem := mem[h + mem[h].size - 8 := Ftr(mem[h].size, false)];
      bs := bs[h := Marked(bs[h], false)];
      assert {h} - {h} == {};
      UndisturbedTrans(m0, bs0, m1, bs1, mem, bs, {h}, {h}, {h});
      InnerTwice(m0, m1, mem, h, bs0[h].size, bs1[h].size);
      if Quiet(bs0, 0) {
        FuseQuiet(m0, bs0, m1, bs1, h);
        QuietMarked(bs1, h, false);
      }
    }

    /** `sdb_heap_realloc` when the free right neighbour gives enough room. */
    method GrowInPlace(h: int, next: int, required: int)
      requires CanGrow(bs, h, next, required) && Valid()
      modifies this
      ensures Valid() && peak == old(peak) && denied == old(denied)
      ensures Extended(old(mem), old(bs), mem, bs, h, required)
    {
      hide Ground, Chain, Rest, Ended, Undisturbed, Same, At, CanAbsorb, Quiet;
      ghost var m0, bs0 := mem, bs;
      SoundHeader(mem, bs, fl, {}, lastAddress, h);
      TakeIn(h, next, required);
      ghost var m2, bs2 := mem, bs;
      SoundHeader(mem, bs, fl, {}, lastAddress, h);
      CutUsed(h, mem[h].size, required);
      UndisturbedTrans(m0, bs0, m2, bs2, mem, bs, {h}, {h}, {h});
      InnerTwice(m0, m2, mem, h, bs0[h].size, required);
    }

    /** Splits the used block at `h` and writes its tags once more. */
    method CutUsed(h: int, available: int, required: int)
      requires h in bs && available == bs[h].size && !bs[h].free && bs[h].link.Off?
      requires required % 8 == 0 && MIN_SIZE <= required <= available
      requires freeStart == At(fl, 0) && Sound(mem, bs, fl, {}, lastAddress)
      modifies this`mem, this`bs, this`fl, this`freeStart
      ensures h in bs && !bs[h].free && required <= bs[h].size < required + MIN_SIZE && mem.Keys == old(mem).Keys
      ensures Undisturbed(old(mem), old(bs), mem, bs, {h}) && Same(old(mem), mem, h + 8, h + required - 8)
      ensures Quiet(old(bs), h) && NextUsed(old(bs), h) ==> Quiet(bs, 0)
      ensures freeStart == At(fl, 0) && Sound(mem, bs, fl, {}, lastAddress)
    {
      hide Ground, Chain, Rest, Ended, Undisturbed, Stamp, SplitOf, Same, At, Quiet;
      ghost var m2, bs2 := mem, bs;
      Split(h, available, required, {}, lastAddress);
      SplitSize(m2, bs2, mem, bs, h, available, required);
      ghost var m3, bs3 := mem, bs;
      if Quiet(bs2, h) && NextUsed(bs2, h) {
        CutQuiet(m2, bs2, m3, bs3, h, required);
      }
      SealWrites(mem, bs, fl, {}, lastAddress, h);
      SetFree(h, false);
      bs := bs[h := Marked(bs[h], false)];
      assert {} - {h} == {};
      UndisturbedTrans(m2, bs2, m3, bs3, mem, bs, {h}, {h}, {h});
      InnerTwice(m2, m3, mem, h, required, bs3[h].size);
      if Quiet(bs3, 0) {
        SealQuiet(m3, bs3, mem, bs, h);
      }
    }

    /** `memcpy` from one live payload to another. */
    method CopyPayload(q: int, p: int, n: nat)
      requires Valid() && p != q && p - 8 in Live() && q - 8 in Live() && n <= Live()[p - 8] && n <= Live()[q - 8]
               && n % 8 == 0
      modifies this`mem
      ensures Valid() && Copied(old(mem), p, mem, q, n) && Untouched(old(mem), mem, Live() - {q - 8})
    {
      hide Ground, Chain, Rest, Ended, LiveOf, Untouched, At, Mapped, Outside, Copied, Quiet;
      ghost var m := mem;
      LiveAt(bs, p - 8);
      LiveAt(bs, q - 8);
      Disjoint(mem, bs, fl, lastAddress, p - 8, q - 8);
      MappedPart(mem, q, q - 8 + bs[q - 8].size, q + n);
      MappedPart(mem, p, p - 8 + bs[p - 8].size, p + n);
      CopyWords(q, p, n);
      PayloadSound(m, bs, mem, fl, lastAddress, q - 8, n);
    }

    /** `sdb_heap_realloc` when the block has to move. */
    method MoveBlock(p: int, size: nat) returns (q: int)
      requires Valid() && p - 8 in Live() && Live()[p - 8] < size
      modifies this
      ensures Valid() && PeakAfter(old(mem), old(peak), peak)
      ensures old(denied) <= denied && q != p && (q == 0 <==> Refuses(old(bs), old(fl), size, denied > old(denied)))
      ensures q == 0 ==> Live() == old(Live()) && Untouched(old(mem), mem, old(Live()))
      ensures q != 0 ==> Resized(old(mem), old(Live()), mem, Live(), p, q, size)
    {
      hide Sound, LiveOf, Untouched, At, Copied, NoneFits, FirstFit, Tight, PeakAfter;
      ghost var m0, l0 := mem, LiveOf(bs);
      LiveAt(bs, p - 8);
      SoundHeader(mem, bs, fl, {}, lastAddress, p - 8);
      StaysPut(mem, bs, fl, lastAddress, p - 8, 0);
      var payload := mem[p - 8].size - META;
      q := Malloc(size);
      if q == 0 {
        return;
      }
      ghost var m1, l1 := mem, LiveOf(bs);
      var copySize := if payload < size then payload else size;
      CopyPayload(q, p, copySize);
      ghost var m2 := mem;
      LiveAt(bs, p - 8);
      Free(p);
      MovedAll(m0, l0, m1, l1, m2, mem, LiveOf(bs), p, q, size);
    }

    /** `sdb_heap_realloc`. */
    method Realloc(p: int, size: nat) returns (q: int)
      requires Valid() && (p == 0 || p - 8 in Live())
      modifies this
      ensures Valid() && PeakAfter(old(mem), old(peak), peak)
      ensures p == 0 ==> if q == 0 then Live() == old(Live()) else Granted(old(Live()), Live(), q, size)
      ensures p != 0 && size == 0 ==> q == 0 && Live() == old(Live()) - {p - 8} && Untouched(old(mem), mem, Live())
      ensures p != 0 && size != 0 && q != 0 ==> Resized(old(mem), old(Live()), mem, Live(), p, q, size)
      ensures p != 0 && size != 0 && q == 0 ==> Live() == old(Live())
      ensures p == 0 || (size != 0 && q == 0) ==> Untouched(old(mem), mem, old(Live()))
      ensures p != 0 && 0 < size <= old(Live())[p - 8] ==> q == p && mem == old(mem) && bs == old(bs)
      ensures old(denied) <= denied
      ensures Resizing(p, size, old(bs), old(fl), denied > old(denied), q)
    {
      hide Ground, Chain, Ended, Rest, LiveOf, Untouched, At, Copied, NoneFits, FirstFit, Undisturbed, Same,
           CanAbsorb, Tight, PagesMore;
      UntouchedRefl(mem, LiveOf(bs));
      if p == 0 {
        q := Malloc(size);
        return;
      }
      LiveAt(bs, p - 8);
      if size == 0 {
        Free(p);
        return 0;
      }
      ghost var m0, bs0 := mem, bs;
      var h := p - 8;
      SoundHeader(mem, bs, fl, {}, lastAddress, h);
      var required := BlockSize(size);
      if required.None? {
        return 0;
      }
      if size <= mem[h].size - META {
        StaysPut(mem, bs, fl, lastAddress, h, size);
        return p;
      }
      if mem[h].hasNext {
        var next := h + mem[h].size;
        RightHeader(mem, bs, h, {});
        if mem[next].free && mem[h].size + mem[next].size <= INT_MAX && mem[h].size + mem[next].size >= required.value {
          GrowInPlace(h, next, required.value);
          GrewInPlace(m0, bs0, mem, bs, fl, lastAddress, h, required.value, size);
          return p;
        }
      }
      q := MoveBlock(p, size);
    }

    /** `sdb_heap_fini` frees blocks that are free already, so it releases nothing. */
    method Fini()
      requires Valid()
      modifies this
      ensures Valid() && mem == old(mem) && bs == old(bs) && fl == old(fl)
    {
      hide Sound, LiveOf, Untouched, At, Tight;
      var current := freeStart;
      ghost var i := 0;
      FreeEnd(fl);
      while current != 0
        invariant Valid() && mem == old(mem) && bs == old(bs) && fl == old(fl)
        invariant 0 <= i <= |fl| && current == At(fl, i)
        decreases |fl| - i
      {
        FreeAt(mem, bs, fl, {}, lastAddress, i);
        ListedFree(mem, bs, fl, lastAddress, i);
        LiveAt(bs, fl[i]);
        var next := mem[current].addr;
        Free(current);
        current := next;
        i := i + 1;
      }
    }

    /** Any client that frees, resizes and writes to only its own blocks: its pointers are
        always distinct live blocks, no live block is ever lost, each block is as large
        as last asked for, and it holds every word the client has written to it. */
    method Run(script: seq<Request>) returns (client: Client, ghost trace: seq<int>)
      requires Valid() && Live() == map[]
      modifies this
      ensures Valid() && Kept(client)
      ensures peak <= INT_MAX ==> Quiet(bs, 0)
      ensures |trace| == |script| && client == Told(script, trace)
      ensures old(denied) <= denied && (denied == old(denied) ==> AllAnswered(script, trace))
    {
      hide Sound, LiveOf, Untouched, Holds, At, NoneFits, FirstFit, Copied, Tell, Told, Quiet, AllAnswered, Answered;
      client, trace := Client([], []), [];
      assert AllAnswered(script, []) by {
        NothingAsked(script);
      }
      HoldsNone();
      ToldNone();
      var i := 0;
      while i < |script|
        invariant 0 <= i == |trace| <= |script| && Valid() && Kept(client)
        invariant client == Told(script[..i], trace)
        invariant old(denied) <= denied && (denied == old(denied) ==> AllAnswered(script, trace))
      {
        ghost var got;
        client, got := Serve(script[i], client);
        ToldMore(script, trace, i, got);
        if denied == old(denied) {
          AnsweredMore(script, trace, got);
        }
        trace := trace + [got];
        i := i + 1;
      }
      assert script[..|script|] == script;
    }

    /** The client's pointers are exactly the live blocks, and its notes are true. */
    ghost predicate Kept(c: Client)
      reads this
    {
      Holds(c.held, Live()) && AllSafe(c.held, c.notes, Live(), mem)
    }

    /** One request, refused exactly when it must be. */
    method Serve(r: Request, c: Client) returns (now: Client, ghost got: int)
      requires Valid() && Kept(c)
      modifies this
      ensures Valid() && Kept(now) && now == Tell(r, got, c)
      ensures old(denied) <= denied
      ensures r.Allocate? ==> (got == 0 <==> Refuses(old(bs), old(fl), r.size, denied > old(denied)))
      ensures denied == old(denied) ==> Answered(r, c, got)
      ensures r.Resize? && r.k < |c.held| ==> Resizing(c.held[r.k], r.size, old(bs), old(fl), denied > old(denied), got)
    {
      hide Sound, LiveOf, Untouched, Holds, At, NoneFits, FirstFit, Copied, Safe, Same, Tight;
      ghost var l0, m0 := Live(), mem;
      now, got := c, 0;
      var held, notes := c.held, c.notes;
      match r
      case Allocate(size) =>
        var p := Malloc(size);
        HoldsGrant(held, l0, Live(), p, size);
        SafeGrant(held, notes, l0, m0, Live(), mem, p, size);
        now, got := Client(held + [p], notes + [Note(size, map[])]), p;
      case Release(k) =>
        if k < |held| {
          HoldsAt(held, l0, k);
          LiveAt(bs, held[k] - 8);
          Free(held[k]);
          HoldsDrop(held, l0, k);
          SafeDrop(held, notes, l0, m0, Live(), mem, k);
          now := Client(held[k := 0], notes[k := NOTHING]);
        }
      case Resize(k, size) =>
        if k < |held| {
          now, got := ServeResize(k, size, c);
        }
      case Write(k, offset, v) =>
        if k < |held| && held[k] != 0 && offset % 8 == 0 && offset < notes[k].asked {
          HoldsAt(held, l0, k);
          SafeAt(held, notes, l0, m0, k);
          Store(held[k], offset, v);
          SafeWrite(held, notes, l0, m0, k, offset, v);
          now := c.(notes := notes[k := notes[k].(wrote := notes[k].wrote[offset := v])]);
        }
    }

    method ServeResize(k: nat, size: nat, c: Client) returns (now: Client, ghost got: int)
      requires Valid() && Kept(c) && k < |c.held|
      modifies this
      ensures Valid() && Kept(now) && now == Tell(Resize(k, size), got, c) && old(denied) <= denied
      ensures Resizing(c.held[k], size, old(bs), old(fl), denied > old(denied), got)
    {
      hide Sound, LiveOf, Untouched, Holds, At, NoneFits, FirstFit, Copied, Safe, Same, Resized, Tight;
      ghost var l0, m0 := Live(), mem;
      var held, notes := c.held, c.notes;
      HoldsAt(held, l0, k);
      var q := Realloc(held[k], size);
      got := q;
      HoldsResize(held, m0, l0, mem, Live(), k, q, size);
      if q == 0 && size != 0 {
        SafeGrant(held, notes, l0, m0, Live(), mem, 0, 0);
        assert held[k := held[k]] == held;
        now := c;
      } else if q == 0 && held[k] != 0 {
        SafeDrop(held, notes, l0, m0, Live(), mem, k);
        now := Client(held[k := 0], notes[k := NOTHING]);
      } else if held[k] == 0 {
        SafeGrant(held, notes, l0, m0, Live(), mem, q, size);
        now := Client(held[k := q], notes[k := Note(size, map[])]);
      } else {
        SafeResized(held, notes, l0, m0, Live(), mem, k, q, size);
        now := Client(held[k := q], notes[k := notes[k].(asked := size)]);
      }
    }
  }
}
