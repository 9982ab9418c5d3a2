/**
 src/heap.c: the whole allocator invariant, and that every step keeps it.
 */
module HeapSound {
  import opened HeapSpec
  import opened HeapBlocks

  /** The free list holds exactly the free blocks and the footers are right, except
      for blocks in the middle of a change. */
  ghost predicate Rest(bs: Blocks, xs: set<int>) {
    forall a :: a in bs && a !in xs ==> bs[a].sealed && (bs[a].free <==> bs[a].link.On?)
  }

  ghost predicate EndsAt(bs: Blocks, p: int, last: int) {
    p in bs && p + bs[p].size == last && !bs[p].hasNext
  }

  /** `last_address` is null or the end of a block with no linked right neighbour. */
  ghost predicate Ended(bs: Blocks, last: int) {
    last == 0 || exists p :: EndsAt(bs, p, last)
  }

  ghost predicate Sound(m: Memory, bs: Blocks, fl: seq<int>, xs: set<int>, last: int) {
    Ground(m, bs) && Chain(bs, fl) && Rest(bs, xs) && Ended(bs, last)
  }

  lemma EndedKept(bs: Blocks, cs: Blocks, last: int)
    requires Ended(bs, last) && forall p :: p in bs
                                  ==> p in cs && cs[p].size == bs[p].size && (cs[p].hasNext ==> bs[p].hasNext)
    ensures Ended(cs, last)
  {
    if last != 0 {
      var p :| EndsAt(bs, p, last);
      assert EndsAt(cs, p, last);
    }
  }

  lemma SoundFree(m: Memory, bs: Blocks, fl: seq<int>, xs: set<int>, last: int, a: int, v: bool)
    requires Sound(m, bs, fl, xs, last) && a in bs
    ensures var n, cs := Stamp(m, a, Marked(bs[a], v)), bs[a := Marked(bs[a], v)];
            && Sound(n, cs, fl, xs + {a}, last) && Undisturbed(m, bs, n, cs, {a})
            && ((v <==> bs[a].link.On?) ==> Sound(n, cs, fl, xs - {a}, last))
  {
    hide Ground, Chain, Ended, Undisturbed, Stamp;
    var cs := bs[a := Marked(bs[a], v)];
    FreeSet(m, bs, a, v);
    ChainKept(bs, cs, fl);
    EndedKept(bs, cs, last);
  }

  // --- free list ---

  function LinkMemory(m: Memory, fl: seq<int>, i: int): Memory
    requires 0 <= i < |fl|
  {
    var n := if i > 0 then Relink(m, fl[i - 1], On(At(fl, i + 1), At(fl, i - 2))) else m;
    if i + 1 < |fl| then Relink(n, fl[i + 1], On(At(fl, i + 2), At(fl, i - 1))) else n
  }

  lemma LinksGround(m: Memory, bs: Blocks, fl: seq<int>, i: int)
    requires Ground(m, bs) && Chain(bs, fl) && 0 <= i < |fl|
    ensures Ground(LinkMemory(m, fl, i), Removed(bs, fl, i))
    ensures Undisturbed(m, bs, LinkMemory(m, fl, i), Removed(bs, fl, i), {fl[i]})
  {
    hide Ground, Undisturbed, Chain, Relink, At;
    var n, cs := m, bs;
    UndisturbedRefl(m, bs);
    ChainAt(bs, fl, i);
    if i > 0 {
      ChainAt(bs, fl, i - 1);
      var l := On(At(fl, i + 1), At(fl, i - 2));
      LinkSet(m, bs, fl[i - 1], l);
      UndisturbedTrans(m, bs, n, cs, Relink(m, fl[i - 1], l), WithLink(bs, fl[i - 1], l), {}, {fl[i - 1]}, {});
      n, cs := Relink(m, fl[i - 1], l), WithLink(bs, fl[i - 1], l);
    }
    if i + 1 < |fl| {
      ChainAt(bs, fl, i + 1);
      var l := On(At(fl, i + 2), At(fl, i - 1));
      LinkSet(n, cs, fl[i + 1], l);
      UndisturbedTrans(m, bs, n, cs, Relink(n, fl[i + 1], l), WithLink(cs, fl[i + 1], l), {}, {fl[i + 1]}, {});
      n, cs := Relink(n, fl[i + 1], l), WithLink(cs, fl[i + 1], l);
    }
    LinkSet(n, cs, fl[i], Off);
    assert Relink(n, fl[i], Off) == n by {
      RelinkOff(n, fl[i]);
    }
    UndisturbedTrans(m, bs, n, cs, n, WithLink(cs, fl[i], Off), {}, {fl[i]}, {fl[i]});
  }

  lemma RelinkOff(m: Memory, a: int)
    ensures Relink(m, a, Off) == m
  {
  }

  lemma ChainAt(bs: Blocks, fl: seq<int>, i: int)
    requires Chain(bs, fl) && 0 <= i < |fl|
    ensures fl[i] in bs && bs[fl[i]].link == On(At(fl, i + 1), At(fl, i - 1))
  {
    assert Threaded(bs, fl, i);
  }

  /** Links aside, removal and insertion change nothing. */
  lemma RemovedSame(bs: Blocks, fl: seq<int>, i: int)
    requires Chain(bs, fl) && 0 <= i < |fl|
    ensures Removed(bs, fl, i).Keys == bs.Keys
    ensures forall c :: c in bs ==> var d := Removed(bs, fl, i)[c];
                                    d == bs[c].(link := d.link) && (d.link.On? <==> bs[c].link.On? && c != fl[i])
  {
    assert Threaded(bs, fl, i);
    assert i > 0 ==> Threaded(bs, fl, i - 1);
    assert i + 1 < |fl| ==> Threaded(bs, fl, i + 1);
  }

  lemma SoundRemove(m: Memory, bs: Blocks, fl: seq<int>, xs: set<int>, last: int, i: int)
    requires Sound(m, bs, fl, xs, last) && 0 <= i < |fl| && fl[i] in bs && !bs[fl[i]].free && bs[fl[i]].sealed
    ensures Sound(LinkMemory(m, fl, i), Removed(bs, fl, i), Drop(fl, i), xs - {fl[i]}, last)
    ensures Undisturbed(m, bs, LinkMemory(m, fl, i), Removed(bs, fl, i), {fl[i]})
    ensures Removed(bs, fl, i).Keys == bs.Keys
    ensures forall c :: c in bs ==> var d := Removed(bs, fl, i)[c];
                                    d == bs[c].(link := d.link) && (d.link.On? <==> bs[c].link.On? && c != fl[i])
  {
    hide Ground, Chain, Ended, Undisturbed, LinkMemory, Removed, Drop;
    LinksGround(m, bs, fl, i);
    ChainRemove(bs, fl, i);
    RemovedSame(bs, fl, i);
    EndedKept(bs, Removed(bs, fl, i), last);
  }

  function PushMemory(m: Memory, fl: seq<int>, a: int): Memory {
    var n := Relink(m, a, On(At(fl, 0), 0));
    if fl == [] then n else Relink(n, fl[0], On(At(fl, 1), a + 8))
  }

  lemma PushGround(m: Memory, bs: Blocks, fl: seq<int>, a: int)
    requires Ground(m, bs) && Chain(bs, fl) && a in bs && bs[a].link.Off?
    ensures Ground(PushMemory(m, fl, a), Pushed(bs, fl, a))
    ensures Undisturbed(m, bs, PushMemory(m, fl, a), Pushed(bs, fl, a), {a})
  {
    hide Ground, Undisturbed, Chain, Relink, At;
    var l := On(At(fl, 0), 0);
    LinkSet(m, bs, a, l);
    if fl != [] {
      ChainAt(bs, fl, 0);
      var n, cs, k := Relink(m, a, l), WithLink(bs, a, l), On(At(fl, 1), a + 8);
      LinkSet(n, cs, fl[0], k);
      UndisturbedTrans(m, bs, n, cs, Relink(n, fl[0], k), WithLink(cs, fl[0], k), {a}, {fl[0]}, {a});
    }
  }

  lemma PushedSame(bs: Blocks, fl: seq<int>, a: int)
    requires Chain(bs, fl) && a in bs && bs[a].link.Off?
    ensures Pushed(bs, fl, a).Keys == bs.Keys
    ensures forall c :: c in bs ==> var d := Pushed(bs, fl, a)[c];
                                    d == bs[c].(link := d.link) && (d.link.On? <==> bs[c].link.On? || c == a)
  {
    assert fl != [] ==> Threaded(bs, fl, 0);
  }

  lemma SoundPush(m: Memory, bs: Blocks, fl: seq<int>, xs: set<int>, last: int, a: int)
    requires Sound(m, bs, fl, xs, last) && a in bs && bs[a].free && bs[a].sealed && bs[a].link.Off?
    ensures Sound(PushMemory(m, fl, a), Pushed(bs, fl, a), [a] + fl, xs - {a}, last)
    ensures Undisturbed(m, bs, PushMemory(m, fl, a), Pushed(bs, fl, a), {a})
    ensures Pushed(bs, fl, a).Keys == bs.Keys
    ensures forall c :: c in bs ==> var d := Pushed(bs, fl, a)[c];
                                    d == bs[c].(link := d.link) && (d.link.On? <==> bs[c].link.On? || c == a)
  {
    hide Ground, Chain, Ended, Undisturbed, PushMemory, Pushed;
    PushGround(m, bs, fl, a);
    ChainPush(bs, fl, a);
    PushedSame(bs, fl, a);
    EndedKept(bs, Pushed(bs, fl, a), last);
  }

  // --- split, merge, map, unmap ---

  lemma EndedCut(bs: Blocks, a: int, n: int, last: int)
    requires Spaced(bs) && a in bs && CanCut(bs, a, n) && Ended(bs, last)
    ensures Ended(Cut(bs, a, n), last)
  {
    Inside(bs, a, a + n);
    hide Spaced;
    if last != 0 {
      var p :| EndsAt(bs, p, last);
      assert EndsAt(Cut(bs, a, n), if p == a then a + n else p, last);
    }
  }

  /** Block kinds after a cut. */
  lemma CutSame(bs: Blocks, a: int, n: int)
    requires Spaced(bs) && a in bs && CanCut(bs, a, n)
    ensures var cs := Cut(bs, a, n);
            && cs.Keys == bs.Keys + {a + n} && a + n !in bs
            && cs[a] == bs[a].(size := n, hasNext := true, sealed := true)
            && cs[a + n] == Block(bs[a].size - n, true, a, bs[a].hasNext, Off, true)
            && forall c :: c in bs && c != a ==> cs[c] == bs[c].(prev := cs[c].prev)
  {
    Inside(bs, a, a + n);
  }

  lemma CutChain(bs: Blocks, fl: seq<int>, a: int, n: int, xs: set<int>)
    requires Spaced(bs) && Chain(bs, fl) && Rest(bs, xs) && a in bs && CanCut(bs, a, n)
    ensures Chain(Cut(bs, a, n), fl) && Rest(Cut(bs, a, n), xs + {a + n})
  {
    hide Spaced, Chain, CanCut, Cut;
    CutSame(bs, a, n);
    ChainKept(bs, Cut(bs, a, n), fl);
  }

  /** `split`: the right part goes onto the free list, the left part is what it was. */
  lemma SoundCut(m: Memory, bs: Blocks, fl: seq<int>, xs: set<int>, last: int, a: int, n: int)
    requires Sound(m, bs, fl, xs, last) && a in bs && CanCut(bs, a, n)
    ensures Sound(CutMemory(m, bs, a, n), Cut(bs, a, n), fl, xs + {a + n}, last)
    ensures Undisturbed(m, bs, CutMemory(m, bs, a, n), Cut(bs, a, n), {a, a + n})
    ensures Same(m, CutMemory(m, bs, a, n), a + 8, a + n - 8)
  {
    GroundSpaced(m, bs);
    hide Ground, Chain, Ended, Undisturbed, CutMemory, Cut, Spaced, CanCut, Rest, Same;
    CutGround(m, bs, a, n);
    CutChain(bs, fl, a, n, xs);
    EndedCut(bs, a, n, last);
  }

  lemma GroundSpaced(m: Memory, bs: Blocks)
    requires Ground(m, bs)
    ensures Spaced(bs) && Words(m, bs) && Linked(bs)
  {
  }

  lemma FuseSame(bs: Blocks, a: int)
    requires a in bs && CanFuse(bs, a) && bs[a].size > 0 && bs[a + bs[a].size].size > 0
    ensures var cs := Fuse(bs, a);
            && cs.Keys == bs.Keys - {a + bs[a].size} && a in cs
            && cs[a] == Fused(bs[a], bs[a + bs[a].size])
            && forall c :: c in cs && c != a ==> cs[c] == bs[c].(prev := cs[c].prev)
  {
  }

  lemma FuseChain(bs: Blocks, fl: seq<int>, a: int, xs: set<int>, last: int)
    requires Chain(bs, fl) && Rest(bs, xs) && Ended(bs, last) && a in bs && CanFuse(bs, a) && bs[a].size > 0
             && bs[a + bs[a].size].size > 0
    ensures Chain(Fuse(bs, a), fl) && Rest(Fuse(bs, a), xs + {a}) && Ended(Fuse(bs, a), last)
  {
    hide Chain, Fuse;
    FuseSame(bs, a);
    ChainKept(bs, Fuse(bs, a), fl);
    if last != 0 {
      var p :| EndsAt(bs, p, last);
      assert EndsAt(Fuse(bs, a), if p == a + bs[a].size then a else p, last);
    }
  }

  lemma SoundFuse(m: Memory, bs: Blocks, fl: seq<int>, xs: set<int>, last: int, a: int)
    requires Sound(m, bs, fl, xs, last) && a in bs && CanFuse(bs, a)
    ensures var n := m[a := HdrOf(Fused(bs[a], bs[a + bs[a].size]))];
            && Sound(n, Fuse(bs, a), fl, xs + {a}, last) && Outside(m, n, a, a + 8)
            && Undisturbed(m, bs, n, Fuse(bs, a), {a, a + bs[a].size})
  {
    hide Ground, Chain, Ended, Undisturbed, Fuse, Rest, Outside, HdrOf, Fused;
    Positive(m, bs, a);
    Positive(m, bs, a + bs[a].size);
    FuseGround(m, bs, a);
    FuseChain(bs, fl, a, xs, last);
  }

  /** The tail hint after a region is given back. */
  function LastAfter(bs: Blocks, a: int, last: int): int
    requires a in bs
  {
    if last != a + bs[a].size then last else if bs[a].prev != 0 then a else 0
  }

  lemma UnmapChain(m: Memory, bs: Blocks, fl: seq<int>, a: int, xs: set<int>, last: int)
    requires Chain(bs, fl) && Rest(bs, xs) && Ended(bs, last) && Ground(m, bs) && a in bs && bs[a].link.Off?
    ensures Chain(Parted(bs, a) - {a}, fl) && Rest(Parted(bs, a) - {a}, xs)
            && Ended(Parted(bs, a) - {a}, LastAfter(bs, a, last))
  {
    hide Chain, Ground, Parted, Ended;
    PartedSame(bs, a);
    ChainKept(bs, Parted(bs, a) - {a}, fl);
    UnmapEnded(m, bs, a, last);
  }

  lemma UnmapEnded(m: Memory, bs: Blocks, a: int, last: int)
    requires Ended(bs, last) && Ground(m, bs) && a in bs
    ensures Ended(Parted(bs, a) - {a}, LastAfter(bs, a, last))
  {
    hide Ground, Parted;
    var cs := Parted(bs, a) - {a};
    PartLayout(bs, a);
    Positive(m, bs, a);
    if last == a + bs[a].size && bs[a].prev != 0 {
      assert EndsAt(cs, bs[a].prev, a);
    } else if LastAfter(bs, a, last) != 0 {
      var p :| EndsAt(bs, p, last);
      assert EndsAt(cs, p, last);
    }
  }

  lemma Positive(m: Memory, bs: Blocks, a: int)
    requires Ground(m, bs) && a in bs
    ensures a > 0 && bs[a].size >= MIN_SIZE && Shape(a, bs[a]) && BlockWords(m, a, bs[a])
    ensures Neighbours(bs, a) && bs[a].prev != a
  {
    hide Spaced, Tiled;
    assert Neighbours(bs, a);
    Sizes(m, bs, a);
  }

  lemma PartedSame(bs: Blocks, a: int)
    requires a in bs
    ensures Parted(bs, a).Keys == bs.Keys
    ensures forall x :: x in bs ==> var d := Parted(bs, a)[x]; d == bs[x].(prev := d.prev, hasNext := d.hasNext)
  {
  }

  lemma SoundUnmap(m: Memory, bs: Blocks, fl: seq<int>, xs: set<int>, last: int, a: int)
    requires Sound(m, bs, fl, xs, last) && a in bs && bs[a].link.Off?
    ensures var n, cs := Without(PartedMemory(m, bs, a), a, a + bs[a].size), Parted(bs, a) - {a};
            Sound(n, cs, fl, xs, LastAfter(bs, a, last)) && Undisturbed(m, bs, n, cs, {a})
  {
    hide Ground, Chain, Ended, Undisturbed, Rest, Parted, PartedMemory, Without, LastAfter;
    UnmapGround(m, bs, a);
    UnmapChain(m, bs, fl, a, xs, last);
  }

  lemma SoundMap(m: Memory, bs: Blocks, fl: seq<int>, last: int, r: int, n: int)
    requires Sound(m, bs, fl, {}, last) && Unused(m, r, n) && n % 8 == 0 && MIN_SIZE <= n <= INT_MAX
    ensures var p, cs := Stamp(Zeroed(m, r, n), r, Region(n)), bs[r := Region(n)];
            && r !in bs && Sound(p, cs, fl, {}, r + n) && Undisturbed(m, bs, p, cs, {r})
            && forall q :: EndsAt(bs, q, last) ==> EndsAt(cs, q, last) && q != r
  {
    hide Ground, Chain, Undisturbed, Stamp, Zeroed, Unused;
    var cs := bs[r := Region(n)];
    MapGround(m, bs, r, n);
    ChainKept(bs, cs, fl);
    assert EndsAt(cs, r, r + n);
  }

  lemma SoundJoin(m: Memory, bs: Blocks, fl: seq<int>, last: int, p: int, r: int)
    requires Sound(m, bs, fl, {}, last) && r in bs && EndsAt(bs, p, r) && bs[r].prev == 0 && EndsAt(bs, r, last)
    ensures p in m && r in m && p != r
    ensures var n := m[r := HdrOf(bs[r].(prev := p))][p := HdrOf(bs[p].(hasNext := true))];
            Sound(n, Joined(bs, p, r), fl, {}, last) && Undisturbed(m, bs, n, Joined(bs, p, r), {})
  {
    hide Ground, Chain, Undisturbed, HdrOf;
    JoinGround(m, bs, p, r);
    ChainKept(bs, Joined(bs, p, r), fl);
    assert EndsAt(Joined(bs, p, r), r, last);
  }
}
