/**
 src/heap.c: merging neighbours, mapping new regions and giving regions back.
 */
module HeapBlocks {
  import opened HeapSpec

  // --- merging with the right neighbour ---

  function Fused(b: Block, c: Block): Block {
    b.(size := b.size + c.size, hasNext := c.hasNext, sealed := false)
  }

  /** The right neighbour is absorbed; the footer still has to be written. */
  function Fuse(bs: Blocks, a: int): Blocks
    requires a in bs && a + bs[a].size in bs
  {
    var next := a + bs[a].size;
    Back((bs - {next})[a := Fused(bs[a], bs[next])], bs[next].hasNext, next + bs[next].size, a)
  }

  ghost predicate CanFuse(bs: Blocks, a: int)
    requires a in bs
  {
    && bs[a].hasNext && a + bs[a].size in bs
    && bs[a + bs[a].size].link.Off?
    && bs[a].size + bs[a + bs[a].size].size <= INT_MAX
  }

  lemma FusedWords(m: Memory, a: int, b: Block, c: Block)
    requires BlockWords(m, a, b) && BlockWords(m, a + b.size, c) && b.size + c.size <= INT_MAX
    ensures BlockWords(m[a := HdrOf(Fused(b, c))], a, Fused(b, c))
    ensures Outside(m, m[a := HdrOf(Fused(b, c))], a, a + 8) && Outside(m, m[a := HdrOf(Fused(b, c))], a, a + b.size)
    ensures m[a := HdrOf(Fused(b, c))].Keys == m.Keys
  {
    var n := m[a := HdrOf(Fused(b, c))];
    assert n.Keys == m.Keys;
  }

  lemma FuseWords(m: Memory, bs: Blocks, a: int)
    requires Ground(m, bs) && a in bs && CanFuse(bs, a)
    ensures var n := m[a := HdrOf(Fused(bs[a], bs[a + bs[a].size]))];
            && Words(n, Fuse(bs, a)) && Outside(m, n, a, a + 8) && n.Keys == m.Keys
            && Undisturbed(m, bs, n, Fuse(bs, a), {a, a + bs[a].size})
  {
    hide BlockWords, Spaced, Outside, Tiled, Linked, Same;
    var next := a + bs[a].size;
    assert BlockWords(m, a, bs[a]) && BlockWords(m, next, bs[next]);
    FusedWords(m, a, bs[a], bs[next]);
    var n, cs := m[a := HdrOf(Fused(bs[a], bs[next]))], Fuse(bs, a);
    ShapeOf(m, a, bs[a]);
    ShapeOf(m, next, bs[next]);
    forall c | c in cs
      ensures BlockWords(n, c, cs[c])
      ensures c in bs && c != a && c != next ==> Same(m, n, c + 8, c + bs[c].size - 8)
    {
      if c in bs && c != a {
        FarWords(m, n, bs, a, c);
        SameInner(m, n, c, c + bs[c].size);
        FuseBack(n, bs, a, c);
      }
    }
  }

  lemma ShapeOf(m: Memory, a: int, b: Block)
    requires BlockWords(m, a, b)
    ensures a > 0 && b.size >= MIN_SIZE
  {
  }

  lemma Sizes(m: Memory, bs: Blocks, a: int)
    requires Words(m, bs) && a in bs
    ensures BlockWords(m, a, bs[a]) && Shape(a, bs[a]) && a > 0 && bs[a].size >= MIN_SIZE
  {
  }

  lemma FuseBack(n: Memory, bs: Blocks, a: int, c: int)
    requires a in bs && CanFuse(bs, a) && c in bs && c != a && c != a + bs[a].size
    requires Linked(bs) && BlockWords(n, c, bs[c]) && a > 0 && bs[a].size > 0
    ensures c in Fuse(bs, a) && BlockWords(n, c, Fuse(bs, a)[c])
  {
    hide BlockWords;
    var next := a + bs[a].size;
    if bs[next].hasNext && c == next + bs[next].size {
      assert Neighbours(bs, next);
      Reprev(n, c, bs[c], a);
    }
  }

  lemma FuseSpaced(bs: Blocks, a: int)
    requires Spaced(bs) && a in bs && CanFuse(bs, a) && bs[a].size > 0
    ensures Spaced(Fuse(bs, a))
  {
    var cs, next := Fuse(bs, a), a + bs[a].size;
    forall x, y | x in cs && y in cs
      ensures Apart(cs, x, y)
    {
      assert Apart(bs, x, y) && Apart(bs, next, y);
    }
  }

  lemma FuseLinked(bs: Blocks, a: int)
    requires Linked(bs) && a in bs && CanFuse(bs, a) && a > 0 && bs[a].size > 0 && bs[a + bs[a].size].size > 0
    ensures Linked(Fuse(bs, a))
  {
    var cs, next := Fuse(bs, a), a + bs[a].size;
    forall x | x in cs
      ensures Neighbours(cs, x)
    {
      FuseNeighbours(bs, a, x);
    }
  }

  lemma FuseNeighbours(bs: Blocks, a: int, x: int)
    requires Linked(bs) && a in bs && CanFuse(bs, a) && a > 0 && bs[a].size > 0 && bs[a + bs[a].size].size > 0
    requires x in bs && x != a + bs[a].size
    ensures x in Fuse(bs, a) && Neighbours(Fuse(bs, a), x)
  {
    var next := a + bs[a].size;
    assert Neighbours(bs, a) && Neighbours(bs, next) && Neighbours(bs, x);
  }

  lemma FuseTiled(m: Memory, bs: Blocks, n: Memory, a: int)
    requires Tiled(m, bs) && n.Keys == m.Keys && a in bs && CanFuse(bs, a) && bs[a].size > 0
             && bs[a + bs[a].size].size > 0
    ensures Tiled(n, Fuse(bs, a))
  {
    var cs, next := Fuse(bs, a), a + bs[a].size;
    forall w | w in n
      ensures Covered(cs, w)
    {
      assert Covered(bs, w);
      var x :| x in bs && x <= w < x + bs[x].size;
      var y := if x == next then a else x;
      assert y in cs && y <= w < y + cs[y].size;
    }
  }

  lemma FuseGround(m: Memory, bs: Blocks, a: int)
    requires Ground(m, bs) && a in bs && CanFuse(bs, a)
    ensures var n := m[a := HdrOf(Fused(bs[a], bs[a + bs[a].size]))];
            && Ground(n, Fuse(bs, a)) && Outside(m, n, a, a + 8)
            && Undisturbed(m, bs, n, Fuse(bs, a), {a, a + bs[a].size})
  {
    hide Spaced, Linked, Tiled, Words, Undisturbed, Fuse, Fused, BlockWords, Same, Outside, HdrOf;
    Sizes(m, bs, a);
    Sizes(m, bs, a + bs[a].size);
    FuseWords(m, bs, a);
    FuseSpaced(bs, a);
    FuseLinked(bs, a);
    FuseTiled(m, bs, m[a := HdrOf(Fused(bs[a], bs[a + bs[a].size]))], a);
  }

  // --- neighbour flags ---

  /** Rewriting the flags of one header. */
  lemma HdrPut(m: Memory, bs: Blocks, a: int, b: Block)
    requires Words(m, bs) && Spaced(bs) && a in bs && b == bs[a].(prev := b.prev, hasNext := b.hasNext)
    ensures a in m && Words(m[a := HdrOf(b)], bs[a := b]) && Spaced(bs[a := b])
    ensures Undisturbed(m, bs, m[a := HdrOf(b)], bs[a := b], {}) && m[a := HdrOf(b)].Keys == m.Keys
  {
    hide Spaced, Undisturbed;
    assert BlockWords(m, a, bs[a]);
    var n := m[a := HdrOf(b)];
    assert n.Keys == m.Keys;
    FlagWords(m, a, bs[a], b);
    hide BlockWords;
    Poke(m, n, bs, a, b);
    PokeKeeps(m, n, bs, a, b);
    FlagKeeps(m, bs, n, a, b);
    SpacedKept(bs, bs[a := b]);
  }

  lemma FlagWords(m: Memory, a: int, b: Block, c: Block)
    requires BlockWords(m, a, b) && c == b.(prev := c.prev, hasNext := c.hasNext)
    ensures BlockWords(m[a := HdrOf(c)], a, c) && Outside(m, m[a := HdrOf(c)], a, a + b.size)
    ensures Same(m, m[a := HdrOf(c)], a + 8, a + b.size - 8)
  {
    assert m[a := HdrOf(c)].Keys == m.Keys;
  }

  lemma FlagKeeps(m: Memory, bs: Blocks, n: Memory, a: int, b: Block)
    requires a in bs && b == bs[a].(prev := b.prev, hasNext := b.hasNext)
    requires Undisturbed(m, bs, n, bs[a := b], {a}) && Same(m, n, a + 8, a + bs[a].size - 8)
    ensures Undisturbed(m, bs, n, bs[a := b], {})
  {
    hide Same;
  }

  lemma SpacedKept(bs: Blocks, cs: Blocks)
    requires Spaced(bs) && forall a :: a in cs ==> a in bs && cs[a].size == bs[a].size
    ensures Spaced(cs)
  {
    forall x, y | x in cs && y in cs
      ensures Apart(cs, x, y)
    {
      assert Apart(bs, x, y);
    }
  }

  // --- giving a region back ---

  /** The neighbours no longer point at the block. */
  function Parted(bs: Blocks, a: int): Blocks
    requires a in bs
  {
    var p, next := bs[a].prev, a + bs[a].size;
    var cs := if p != 0 && p in bs then bs[p := bs[p].(hasNext := false)] else bs;
    if bs[a].hasNext && next in cs then cs[next := cs[next].(prev := 0)] else cs
  }

  function PartedMemory(m: Memory, bs: Blocks, a: int): Memory
    requires a in bs
  {
    var p, next := bs[a].prev, a + bs[a].size;
    var n := if p != 0 && p in bs then m[p := HdrOf(bs[p].(hasNext := false))] else m;
    if bs[a].hasNext && next in bs then n[next := HdrOf(bs[next].(prev := 0))] else n
  }

  function Without(m: Memory, lo: int, hi: int): Memory {
    map w | w in m && !(lo <= w < hi) :: m[w]
  }

  lemma PartWords(m: Memory, bs: Blocks, a: int)
    requires Ground(m, bs) && a in bs
    ensures var n := PartedMemory(m, bs, a);
            Words(n, Parted(bs, a)) && Spaced(Parted(bs, a)) && n.Keys == m.Keys
                && Undisturbed(m, bs, n, Parted(bs, a), {})
  {
    hide Words, Spaced, Tiled, Undisturbed, HdrOf;
    assert Neighbours(bs, a);
    Sizes(m, bs, a);
    var p, next := bs[a].prev, a + bs[a].size;
    var n, cs := m, bs;
    UndisturbedRefl(m, bs);
    if p != 0 {
      var b := bs[p].(hasNext := false);
      Sizes(m, bs, p);
      HdrPut(m, bs, p, b);
      n, cs := m[p := HdrOf(b)], bs[p := b];
    }
    if bs[a].hasNext {
      var b := cs[next].(prev := 0);
      HdrPut(n, cs, next, b);
      UndisturbedTrans(m, bs, n, cs, n[next := HdrOf(b)], cs[next := b], {}, {}, {});
    }
  }

  lemma UndisturbedRefl(m: Memory, bs: Blocks)
    ensures Undisturbed(m, bs, m, bs, {})
  {
  }

  lemma PartLinked(m: Memory, bs: Blocks, a: int)
    requires Ground(m, bs) && a in bs
    ensures Linked(Parted(bs, a) - {a})
  {
    hide Spaced, Tiled, Words, Shape, Parted, Neighbours;
    PartLayout(bs, a);
    forall x | x in bs && x != a
      ensures Neighbours(Parted(bs, a) - {a}, x)
    {
      Sizes(m, bs, x);
      Sizes(m, bs, a);
      PartNeighbours(bs, a, x);
    }
  }

  lemma DropWords(m: Memory, bs: Blocks, a: int)
    requires Words(m, bs) && Spaced(bs) && a in bs
    ensures Words(Without(m, a, a + bs[a].size), bs - {a}) && Spaced(bs - {a})
    ensures Undisturbed(m, bs, Without(m, a, a + bs[a].size), bs - {a}, {a})
  {
    var n := Without(m, a, a + bs[a].size);
    SpacedKept(bs, bs - {a});
    forall c | c in bs && c != a
      ensures BlockWords(n, c, bs[c]) && Same(m, n, c + 8, c + bs[c].size - 8)
    {
      DropFar(m, bs, a, c);
    }
    hide BlockWords, Spaced, Same, Without;
  }

  lemma DropFar(m: Memory, bs: Blocks, a: int, c: int)
    requires Words(m, bs) && Spaced(bs) && a in bs && c in bs && c != a
    ensures BlockWords(Without(m, a, a + bs[a].size), c, bs[c])
    ensures Same(m, Without(m, a, a + bs[a].size), c + 8, c + bs[c].size - 8)
  {
    assert BlockWords(m, c, bs[c]) && BlockWords(m, a, bs[a]);
    assert Apart(bs, a, c) && Apart(bs, c, a);
  }

  lemma DropTiled(m: Memory, bs: Blocks, n: Memory, cs: Blocks, a: int)
    requires Tiled(m, bs) && n.Keys == m.Keys && a in bs && cs.Keys == bs.Keys
             && forall x :: x in bs ==> cs[x].size == bs[x].size
    ensures Tiled(Without(n, a, a + bs[a].size), cs - {a})
  {
    forall w | w in Without(n, a, a + bs[a].size)
      ensures Covered(cs - {a}, w)
    {
      assert Covered(bs, w);
      var x :| x in bs && x <= w < x + bs[x].size;
      assert x in cs - {a};
    }
  }

  lemma UnmapGround(m: Memory, bs: Blocks, a: int)
    requires Ground(m, bs) && a in bs
    ensures var n, cs := Without(PartedMemory(m, bs, a), a, a + bs[a].size), Parted(bs, a) - {a};
            Ground(n, cs) && Undisturbed(m, bs, n, cs, {a})
  {
    hide Words, Spaced, Linked, Tiled, Undisturbed, Parted, PartedMemory, Without;
    var n, cs := PartedMemory(m, bs, a), Parted(bs, a);
    PartLayout(bs, a);
    PartWords(m, bs, a);
    PartLinked(m, bs, a);
    DropTiled(m, bs, n, cs, a);
    DropWords(n, cs, a);
    UndisturbedTrans(m, bs, n, cs, Without(n, a, a + bs[a].size), cs - {a}, {}, {a}, {a});
  }

  lemma PartNeighbours(bs: Blocks, a: int, x: int)
    requires Linked(bs) && a in bs && x in bs && x != a && x > 0 && a > 0
    ensures x in Parted(bs, a) - {a} && Neighbours(Parted(bs, a) - {a}, x)
  {
    hide Parted;
    PartLayout(bs, a);
    assert Neighbours(bs, x) && Neighbours(bs, a);
  }

  lemma PartLayout(bs: Blocks, a: int)
    requires a in bs
    ensures Parted(bs, a).Keys == bs.Keys
    ensures forall x :: x in bs ==> Parted(bs, a)[x].size == bs[x].size
    ensures forall x :: x in bs ==> Parted(bs, a)[x].hasNext == (bs[x].hasNext && !(x == bs[a].prev && x != 0))
    ensures forall x :: x in bs
              ==> Parted(bs, a)[x].prev == if bs[a].hasNext && x == a + bs[a].size then 0 else bs[x].prev
  {
  }

  // --- mapping a region ---

  ghost predicate Unused(m: Memory, r: int, n: int) {
    r > 0 && r % 8 == 0 && forall w :: r <= w < r + n ==> w !in m
  }

  function Zeroed(m: Memory, r: int, n: int): Memory {
    m + (map w | r <= w < r + n && w % 8 == 0 :: Data(0))
  }

  function Region(n: int): Block {
    Block(n, false, 0, false, Off, true)
  }

  lemma RegionApart(m: Memory, a: int, b: Block, r: int, n: int)
    requires BlockWords(m, a, b) && Unused(m, r, n) && n > 0
    ensures a + b.size <= r || r + n <= a
  {
    var w := if a < r then r else a;
    assert a <= w < a + b.size ==> w in m;
  }

  lemma RegionFar(m: Memory, a: int, b: Block, r: int, n: int)
    requires BlockWords(m, a, b) && Unused(m, r, n) && n % 8 == 0 && MIN_SIZE <= n <= INT_MAX
    ensures BlockWords(Stamp(Zeroed(m, r, n), r, Region(n)), a, b)
            && Same(m, Stamp(Zeroed(m, r, n), r, Region(n)), a, a + b.size)
  {
    RegionApart(m, a, b, r, n);
  }

  lemma RegionHere(m: Memory, r: int, n: int)
    requires Unused(m, r, n) && n % 8 == 0 && MIN_SIZE <= n <= INT_MAX
    ensures BlockWords(Stamp(Zeroed(m, r, n), r, Region(n)), r, Region(n))
    ensures forall w :: w in Stamp(Zeroed(m, r, n), r, Region(n)) ==> w in m || r <= w < r + n
  {
    StampFresh(Zeroed(m, r, n), r, Region(n));
  }

  lemma MapGround(m: Memory, bs: Blocks, r: int, n: int)
    requires Ground(m, bs) && Unused(m, r, n) && n % 8 == 0 && MIN_SIZE <= n <= INT_MAX
    ensures r !in bs && Ground(Stamp(Zeroed(m, r, n), r, Region(n)), bs[r := Region(n)])
    ensures Undisturbed(m, bs, Stamp(Zeroed(m, r, n), r, Region(n)), bs[r := Region(n)], {r})
  {
    hide Stamp, Zeroed, Unused, BlockWords, Linked, Tiled, Spaced, Same;
    var p, cs := Stamp(Zeroed(m, r, n), r, Region(n)), bs[r := Region(n)];
    RegionHere(m, r, n);
    forall c | c in bs
      ensures BlockWords(p, c, bs[c]) && bs[c].size > 0 && (c + bs[c].size <= r || r + n <= c) && c != r
              && Same(m, p, c + 8, c + bs[c].size - 8)
    {
      Sizes(m, bs, c);
      RegionFar(m, c, bs[c], r, n);
      RegionApart(m, c, bs[c], r, n);
      SameInner(m, p, c, c + bs[c].size);
    }
    MapLayout(m, bs, p, r, n);
  }

  lemma MapLayout(m: Memory, bs: Blocks, p: Memory, r: int, n: int)
    requires Spaced(bs) && Linked(bs) && Tiled(m, bs) && r !in bs && n > 0
    requires forall w :: w in p ==> w in m || r <= w < r + n
    requires forall c :: c in bs ==> bs[c].size > 0 && (c + bs[c].size <= r || r + n <= c)
    ensures Spaced(bs[r := Region(n)]) && Linked(bs[r := Region(n)]) && Tiled(p, bs[r := Region(n)])
  {
    var cs := bs[r := Region(n)];
    forall x, y | x in cs && y in cs
      ensures Apart(cs, x, y)
    {
      assert x in bs && y in bs ==> Apart(bs, x, y);
    }
    forall x | x in cs
      ensures Neighbours(cs, x)
    {
      assert x in bs ==> Neighbours(bs, x);
    }
    forall w | w in p
      ensures Covered(cs, w)
    {
      if w in m {
        assert Covered(bs, w);
        var x :| x in bs && x <= w < x + bs[x].size;
        assert x in cs;
      } else {
        assert r in cs;
      }
    }
  }

  /** A region that starts where the last block ended becomes its neighbour. */
  function Joined(bs: Blocks, p: int, r: int): Blocks
    requires p in bs && r in bs
  {
    bs[r := bs[r].(prev := p)][p := bs[p].(hasNext := true)]
  }

  lemma JoinGround(m: Memory, bs: Blocks, p: int, r: int)
    requires Ground(m, bs) && p in bs && r in bs && p + bs[p].size == r && !bs[p].hasNext && bs[r].prev == 0
    ensures p in m && r in m && p != r
    ensures var n := m[r := HdrOf(bs[r].(prev := p))][p := HdrOf(bs[p].(hasNext := true))];
            Ground(n, Joined(bs, p, r)) && Undisturbed(m, bs, n, Joined(bs, p, r), {})
  {
    hide Words, Spaced, Tiled, Linked, Undisturbed, HdrOf, BlockWords;
    Sizes(m, bs, p);
    var b, c := bs[r].(prev := p), bs[p].(hasNext := true);
    HdrPut(m, bs, r, b);
    var m1, cs := m[r := HdrOf(b)], bs[r := b];
    HdrPut(m1, cs, p, c);
    var m2, ds := m1[p := HdrOf(c)], cs[p := c];
    UndisturbedTrans(m, bs, m1, cs, m2, ds, {}, {}, {});
    forall x | x in bs
      ensures x > 0
    {
      Sizes(m, bs, x);
    }
    JoinLayout(m, bs, m2, p, r);
  }

  lemma JoinLayout(m: Memory, bs: Blocks, n: Memory, p: int, r: int)
    requires Linked(bs) && Tiled(m, bs) && n.Keys == m.Keys && p in bs && r in bs
    requires p + bs[p].size == r && !bs[p].hasNext && bs[r].prev == 0 && p != r && forall x :: x in bs ==> x > 0
    ensures Linked(Joined(bs, p, r)) && Tiled(n, Joined(bs, p, r))
  {
    var cs := Joined(bs, p, r);
    forall x | x in cs
      ensures Neighbours(cs, x)
    {
      assert Neighbours(bs, x);
    }
    forall w | w in n
      ensures Covered(cs, w)
    {
      assert Covered(bs, w);
      var x :| x in bs && x <= w < x + bs[x].size;
      assert x in cs;
    }
  }
}
