/**
 src/heap.c: the boundary-tag layout. Memory is a map from 8-aligned addresses to
 8-byte words; the ghost map of blocks says what the words must hold.
 */
module HeapSpec {
  const MIN_SIZE := 32
  const PAGE := 131072
  const INT_MAX := 0x7FFF_FFFF

  /** One aligned word: a header, a footer, a free-list pointer or user data. */
  datatype Word = Hdr(size: int, free: bool, hasPrev: bool, hasNext: bool)
                | Ftr(span: int, vacant: bool)
                | Ptr(addr: int)
                | Data(value: int)

  type Memory = map<int, Word>

  /** Free-list membership: the two pointers kept in the payload, 0 for null. */
  datatype Link = Off | On(next: int, prior: int)

  /** A block as its boundary tags describe it. `prev` is the address of the linked
      left neighbour, 0 for none; `sealed` says that the footer is up to date. */
  datatype Block = Block(size: int, free: bool, prev: int, hasNext: bool, link: Link, sealed: bool)

  type Blocks = map<int, Block>

  predicate Shape(a: int, b: Block) {
    a > 0 && a % 8 == 0 && b.size % 8 == 0 && MIN_SIZE <= b.size <= INT_MAX
  }

  ghost predicate Mapped(m: Memory, lo: int, hi: int) {
    forall w :: lo <= w < hi && w % 8 == 0 ==> w in m
  }

  function HdrOf(b: Block): Word {
    Hdr(b.size, b.free, b.prev != 0, b.hasNext)
  }

  /** The words of one block say what the block is. */
  ghost predicate BlockWords(m: Memory, a: int, b: Block) {
    && Shape(a, b) && Mapped(m, a, a + b.size)
    && a in m && m[a] == HdrOf(b)
    && a + b.size - 8 in m && (b.sealed ==> m[a + b.size - 8] == Ftr(b.size, b.free))
    && a + 8 in m && a + 16 in m
    && (b.link.On? ==> m[a + 8] == Ptr(b.link.next) && m[a + 16] == Ptr(b.link.prior))
  }

  ghost predicate Words(m: Memory, bs: Blocks) {
    forall a :: a in bs ==> BlockWords(m, a, bs[a])
  }

  ghost predicate Apart(bs: Blocks, a: int, b: int)
    requires a in bs && b in bs
  {
    a < b ==> a + bs[a].size <= b
  }

  ghost predicate Spaced(bs: Blocks) {
    forall a, b :: a in bs && b in bs ==> Apart(bs, a, b)
  }

  /** `has_prev` and `has_next` are set exactly between linked neighbours. */
  ghost predicate Neighbours(bs: Blocks, a: int)
    requires a in bs
  {
    && (bs[a].hasNext ==> a + bs[a].size in bs && bs[a + bs[a].size].prev == a)
    && (bs[a].prev != 0 ==> bs[a].prev in bs && bs[bs[a].prev].hasNext && bs[a].prev + bs[bs[a].prev].size == a)
  }

  ghost predicate Linked(bs: Blocks) {
    forall a {:trigger Neighbours(bs, a)} :: a in bs ==> Neighbours(bs, a)
  }

  /** Every mapped word belongs to a block. */
  ghost predicate Covered(bs: Blocks, w: int) {
    exists a :: a in bs && a <= w < a + bs[a].size
  }

  ghost predicate Tiled(m: Memory, bs: Blocks) {
    forall w :: w in m ==> Covered(bs, w)
  }

  /** The payload pointer of the free block at index `i`, null past either end. */
  function At(fl: seq<int>, i: int): int {
    if 0 <= i < |fl| then fl[i] + 8 else 0
  }

  ghost predicate Threaded(bs: Blocks, fl: seq<int>, i: int)
    requires 0 <= i < |fl|
  {
    fl[i] in bs && bs[fl[i]].link == On(At(fl, i + 1), At(fl, i - 1))
  }

  ghost predicate Distinct(fl: seq<int>) {
    forall i, j :: 0 <= i < j < |fl| ==> fl[i] != fl[j]
  }

  /** The doubly linked free list is `fl`, and nothing else carries links. */
  ghost predicate Chain(bs: Blocks, fl: seq<int>) {
    && (forall i :: 0 <= i < |fl| ==> Threaded(bs, fl, i))
    && Distinct(fl)
    && (forall a :: a in bs && bs[a].link.On? ==> a in fl)
  }

  /** Boundary tags: words, disjointness, neighbours and tiling. */
  ghost predicate Ground(m: Memory, bs: Blocks) {
    Words(m, bs) && Spaced(bs) && Linked(bs) && Tiled(m, bs)
  }

  ghost predicate Same(m: Memory, n: Memory, lo: int, hi: int) {
    forall w :: lo <= w < hi && w in m ==> w in n && n[w] == m[w]
  }

  /** `n` differs from `m` only inside [lo, hi). */
  ghost predicate Outside(m: Memory, n: Memory, lo: int, hi: int) {
    && n.Keys == m.Keys
    && forall w :: w in m && !(lo <= w < hi) ==> n[w] == m[w]
  }

  /** The block at `b` is off the free list before and after, and the same. */
  ghost predicate KeptAt(m: Memory, bs: Blocks, n: Memory, cs: Blocks, b: int)
    requires b in bs
  {
    && b in cs && cs[b].link.Off? && cs[b].size == bs[b].size && cs[b].free == bs[b].free
    && Same(m, n, b + 8, b + bs[b].size - 8)
  }

  /** Apart from `xs`, the blocks off the free list are the same ones, with the same
      sizes and payloads. */
  ghost predicate Undisturbed(m: Memory, bs: Blocks, n: Memory, cs: Blocks, xs: set<int>) {
    && (forall b :: b in bs && b !in xs && bs[b].link.Off? ==> KeptAt(m, bs, n, cs, b))
    && (forall b :: b in cs && b !in xs && cs[b].link.Off? ==> b in bs && bs[b].link.Off?)
  }

  ghost predicate OffAt(bs: Blocks, a: int) {
    a in bs && bs[a].link.Off?
  }

  /** Changes in a row; an exception drops out when its block is not off the list at
      either end. */
  lemma UndisturbedTrans(m: Memory, bs: Blocks, n: Memory, cs: Blocks, p: Memory, ds: Blocks, xs: set<int>,
                         ys: set<int>, zs: set<int>)
    requires Undisturbed(m, bs, n, cs, xs) && Undisturbed(n, cs, p, ds, ys)
    requires forall x :: x in xs + ys && x !in zs ==> !OffAt(bs, x) && !OffAt(ds, x)
    ensures Undisturbed(m, bs, p, ds, zs)
  {
    forall b | b in bs && b !in zs && bs[b].link.Off?
      ensures KeptAt(m, bs, p, ds, b)
    {
      assert OffAt(bs, b);
      assert KeptAt(m, bs, n, cs, b);
      assert KeptAt(n, cs, p, ds, b);
    }
    forall b | b in ds && b !in zs && ds[b].link.Off?
      ensures b in bs && bs[b].link.Off?
    {
      assert OffAt(ds, b);
    }
  }

  // --- one block changes ---

  lemma FarWords(m: Memory, n: Memory, bs: Blocks, a: int, c: int)
    requires Words(m, bs) && Spaced(bs) && a in bs && c in bs && c != a && Outside(m, n, a, a + bs[a].size)
    ensures BlockWords(n, c, bs[c])
    ensures Same(m, n, c, c + bs[c].size)
  {
    assert BlockWords(m, c, bs[c]) && BlockWords(m, a, bs[a]);
    assert Apart(bs, a, c) && Apart(bs, c, a);
  }

  /** Rewriting words of one block, with its size kept. */
  lemma Poke(m: Memory, n: Memory, bs: Blocks, a: int, b: Block)
    requires Words(m, bs) && Spaced(bs) && a in bs && Outside(m, n, a, a + bs[a].size)
    requires BlockWords(n, a, b)
    ensures Words(n, bs[a := b])
  {
    hide BlockWords, Outside, Spaced;
    var cs := bs[a := b];
    forall c | c in cs
      ensures BlockWords(n, c, cs[c])
    {
      if c != a {
        FarWords(m, n, bs, a, c);
      }
    }
  }

  lemma PokeKeeps(m: Memory, n: Memory, bs: Blocks, a: int, b: Block)
    requires Words(m, bs) && Spaced(bs) && a in bs && Outside(m, n, a, a + bs[a].size)
    ensures Undisturbed(m, bs, n, bs[a := b], {a})
  {
    hide Outside, Spaced, Words, BlockWords;
    forall c | c in bs && c != a && bs[c].link.Off?
      ensures KeptAt(m, bs, n, bs[a := b], c)
    {
      FarWords(m, n, bs, a, c);
    }
  }

  /** The blocks agree on extent and neighbours. */
  ghost predicate SameLayout(bs: Blocks, cs: Blocks) {
    && cs.Keys == bs.Keys
    && forall a :: a in bs ==> cs[a].size == bs[a].size && cs[a].prev == bs[a].prev && cs[a].hasNext == bs[a].hasNext
  }

  lemma LayoutKept(m: Memory, bs: Blocks, n: Memory, cs: Blocks)
    requires SameLayout(bs, cs) && n.Keys == m.Keys && Spaced(bs) && Linked(bs) && Tiled(m, bs)
    ensures Spaced(cs) && Linked(cs) && Tiled(n, cs)
  {
    forall a, b | a in cs && b in cs
      ensures Apart(cs, a, b)
    {
      assert Apart(bs, a, b);
    }
    forall a | a in cs
      ensures Neighbours(cs, a)
    {
      assert Neighbours(bs, a);
    }
    forall w | w in n
      ensures Covered(cs, w)
    {
      assert Covered(bs, w);
      var a :| a in bs && a <= w < a + bs[a].size;
      assert a in cs;
    }
  }

  /** The links agree. */
  lemma ChainKept(bs: Blocks, cs: Blocks, fl: seq<int>)
    requires Chain(bs, fl)
    requires forall a :: a in bs && bs[a].link.On? ==> a in cs && cs[a].link == bs[a].link
    requires forall a :: a in cs && cs[a].link.On? ==> a in bs && bs[a].link.On?
    ensures Chain(cs, fl)
  {
    forall i | 0 <= i < |fl|
      ensures Threaded(cs, fl, i)
    {
      assert Threaded(bs, fl, i);
    }
  }

  // --- setFree ---

  /** Header and footer of a block. */
  function Stamp(m: Memory, a: int, b: Block): Memory {
    m[a := HdrOf(b)][a + b.size - 8 := Ftr(b.size, b.free)]
  }

  function Marked(b: Block, v: bool): Block {
    b.(free := v, sealed := true)
  }

  lemma FreeSet(m: Memory, bs: Blocks, a: int, v: bool)
    requires Ground(m, bs) && a in bs
    ensures Ground(Stamp(m, a, Marked(bs[a], v)), bs[a := Marked(bs[a], v)])
    ensures Undisturbed(m, bs, Stamp(m, a, Marked(bs[a], v)), bs[a := Marked(bs[a], v)], {a})
  {
    hide Spaced, Linked, Tiled, Undisturbed, Stamp;
    var b := Marked(bs[a], v);
    var n := Stamp(m, a, b);
    StampWords(m, a, bs[a], v);
    Poke(m, n, bs, a, b);
    PokeKeeps(m, n, bs, a, b);
    assert bs[a := b].Keys == bs.Keys;
    LayoutKept(m, bs, n, bs[a := b]);
  }

  lemma StampWords(m: Memory, a: int, b: Block, v: bool)
    requires BlockWords(m, a, b)
    ensures Outside(m, Stamp(m, a, Marked(b, v)), a, a + b.size)
    ensures BlockWords(Stamp(m, a, Marked(b, v)), a, Marked(b, v))
  {
    assert Stamp(m, a, Marked(b, v)).Keys == m.Keys;
  }

  // --- the free list ---

  /** The words of the pointers of a free block. */
  function Relink(m: Memory, a: int, l: Link): Memory {
    if l.Off? then m else m[a + 8 := Ptr(l.next)][a + 16 := Ptr(l.prior)]
  }

  function WithLink(bs: Blocks, a: int, l: Link): Blocks {
    if a in bs then bs[a := bs[a].(link := l)] else bs
  }

  lemma LinkSet(m: Memory, bs: Blocks, a: int, l: Link)
    requires Ground(m, bs) && a in bs
    ensures Ground(Relink(m, a, l), WithLink(bs, a, l))
    ensures Undisturbed(m, bs, Relink(m, a, l), WithLink(bs, a, l), {a})
  {
    hide Spaced, Linked, Tiled, Undisturbed, Relink;
    var b := bs[a].(link := l);
    var n := Relink(m, a, l);
    LinkWords(m, a, bs[a], l);
    Poke(m, n, bs, a, b);
    PokeKeeps(m, n, bs, a, b);
    assert bs[a := b].Keys == bs.Keys;
    LayoutKept(m, bs, n, bs[a := b]);
  }

  lemma LinkWords(m: Memory, a: int, b: Block, l: Link)
    requires BlockWords(m, a, b)
    ensures Outside(m, Relink(m, a, l), a, a + b.size) && BlockWords(Relink(m, a, l), a, b.(link := l))
  {
    assert Relink(m, a, l).Keys == m.Keys;
  }

  /** `append_to_free_list`: in front of the list. */
  lemma ChainPush(bs: Blocks, fl: seq<int>, a: int)
    requires Chain(bs, fl) && a in bs && bs[a].link.Off?
    ensures Chain(Pushed(bs, fl, a), [a] + fl)
  {
    var cs, gl := Pushed(bs, fl, a), [a] + fl;
    forall i | 0 <= i < |gl|
      ensures Threaded(cs, gl, i)
    {
      ThreadPush(bs, fl, a, i);
    }
    forall c | c in cs && cs[c].link.On?
      ensures c in gl
    {
      if fl != [] {
        assert Threaded(bs, fl, 0);
      }
    }
    forall j | 0 <= j < |fl|
      ensures fl[j] != a
    {
      assert Threaded(bs, fl, j);
    }
  }

  lemma ThreadPush(bs: Blocks, fl: seq<int>, a: int, i: int)
    requires Chain(bs, fl) && a in bs && bs[a].link.Off? && 0 <= i <= |fl|
    ensures Threaded(Pushed(bs, fl, a), [a] + fl, i)
  {
    if fl != [] {
      assert Threaded(bs, fl, 0);
    }
    if i > 0 {
      assert Threaded(bs, fl, i - 1);
      assert fl[i - 1] != a;
    }
  }

  function Pushed(bs: Blocks, fl: seq<int>, a: int): Blocks
  {
    var cs := WithLink(bs, a, On(At(fl, 0), 0));
    if fl == [] then cs else WithLink(cs, fl[0], On(At(fl, 1), a + 8))
  }

  /** `remove_from_free_list`, from anywhere in the list. */
  function Removed(bs: Blocks, fl: seq<int>, i: int): Blocks
    requires 0 <= i < |fl|
  {
    var cs := if i > 0 then WithLink(bs, fl[i - 1], On(At(fl, i + 1), At(fl, i - 2))) else bs;
    var ds := if i + 1 < |fl| then WithLink(cs, fl[i + 1], On(At(fl, i + 2), At(fl, i - 1))) else cs;
    WithLink(ds, fl[i], Off)
  }

  function Drop(fl: seq<int>, i: int): seq<int>
    requires 0 <= i < |fl|
  {
    fl[..i] + fl[i + 1..]
  }

  lemma ChainRemove(bs: Blocks, fl: seq<int>, i: int)
    requires Chain(bs, fl) && 0 <= i < |fl|
    ensures Chain(Removed(bs, fl, i), Drop(fl, i))
  {
    var cs, gl := Removed(bs, fl, i), Drop(fl, i);
    forall j | 0 <= j < |gl|
      ensures Threaded(cs, gl, j)
    {
      ThreadRemove(bs, fl, i, j);
    }
    forall a | a in cs && cs[a].link.On?
      ensures a in gl
    {
      assert i > 0 ==> Threaded(bs, fl, i - 1);
      assert i + 1 < |fl| ==> Threaded(bs, fl, i + 1);
      assert bs[a].link.On?;
      var j :| 0 <= j < |fl| && fl[j] == a;
      assert a == gl[if j < i then j else j - 1];
    }
  }

  lemma ThreadRemove(bs: Blocks, fl: seq<int>, i: int, j: int)
    requires Chain(bs, fl) && 0 <= i < |fl| && 0 <= j < |fl| - 1
    ensures Threaded(Removed(bs, fl, i), Drop(fl, i), j)
  {
    var o := if j < i then j else j + 1;
    assert Threaded(bs, fl, o);
    assert Drop(fl, i)[j] == fl[o];
  }

  // --- split ---

  /** The block is cut in two; the right part is not yet on the free list. */
  function Cut(bs: Blocks, a: int, n: int): Blocks
    requires a in bs
  {
    var b := bs[a];
    var rest := Block(b.size - n, true, a, b.hasNext, Off, true);
    var cs := bs[a := b.(size := n, hasNext := true, sealed := true)][a + n := rest];
    Back(cs, b.hasNext, a + b.size, a + n)
  }

  /** The right neighbour, if there is one, has `p` on its left. */
  function Back(bs: Blocks, has: bool, next: int, p: int): Blocks {
    if has && next in bs then bs[next := bs[next].(prev := p)] else bs
  }

  function CutMemory(m: Memory, bs: Blocks, a: int, n: int): Memory
    requires a in bs
  {
    var b := bs[a];
    Stamp(Stamp(m, a, b.(size := n, hasNext := true)), a + n, Block(b.size - n, true, a, b.hasNext, Off, true))
  }

  ghost predicate CanCut(bs: Blocks, a: int, n: int) {
    a in bs && n % 8 == 0 && MIN_SIZE <= n && n + MIN_SIZE <= bs[a].size
  }

  lemma StampFresh(m: Memory, a: int, b: Block)
    requires Shape(a, b) && Mapped(m, a, a + b.size)
    requires b.link.On? ==> a + 8 in m && a + 16 in m && m[a + 8] == Ptr(b.link.next) && m[a + 16] == Ptr(b.link.prior)
    ensures BlockWords(Stamp(m, a, b), a, b.(sealed := true))
    ensures Outside(m, Stamp(m, a, b), a, a + b.size) && Same(m, Stamp(m, a, b), a + 8, a + b.size - 8)
  {
    assert Stamp(m, a, b).Keys == m.Keys;
  }

  lemma BlockFrame(m: Memory, n: Memory, a: int, b: Block, lo: int, hi: int)
    requires BlockWords(m, a, b) && Outside(m, n, lo, hi) && (hi <= a || a + b.size <= lo)
    ensures BlockWords(n, a, b) && Same(m, n, a, a + b.size)
  {
  }

  lemma CutWordsHere(m: Memory, bs: Blocks, a: int, n: int)
    requires a in bs && CanCut(bs, a, n) && BlockWords(m, a, bs[a])
    ensures Outside(m, CutMemory(m, bs, a, n), a, a + bs[a].size)
    ensures BlockWords(CutMemory(m, bs, a, n), a, bs[a].(size := n, hasNext := true, sealed := true))
    ensures BlockWords(CutMemory(m, bs, a, n), a + n, Block(bs[a].size - n, true, a, bs[a].hasNext, Off, true))
    ensures Same(m, CutMemory(m, bs, a, n), a + 8, a + n - 8)
  {
    hide Stamp, Shape, Mapped, BlockWords, Outside, Same, CanCut;
    var left := bs[a].(size := n, hasNext := true);
    var right := Block(bs[a].size - n, true, a, bs[a].hasNext, Off, true);
    CutShapes(m, bs, a, n);
    StampFresh(m, a, left);
    var p := Stamp(m, a, left);
    OutsideMapped(m, p, a, a + n, a + n, a + n + right.size);
    StampFresh(p, a + n, right);
    var q := Stamp(p, a + n, right);
    BlockFrame(p, q, a, left.(sealed := true), a + n, a + n + right.size);
    OutsideTwice(m, p, q, a, a + n, a + n + right.size);
  }

  lemma OutsideMapped(m: Memory, n: Memory, lo: int, hi: int, from: int, to: int)
    requires Outside(m, n, lo, hi) && Mapped(m, from, to)
    ensures Mapped(n, from, to)
  {
  }

  lemma OutsideTwice(m: Memory, n: Memory, p: Memory, a: int, b: int, c: int)
    requires Outside(m, n, a, b) && Outside(n, p, b, c) && a <= b <= c && Same(m, n, a + 8, b - 8)
    ensures Outside(m, p, a, c) && Same(m, p, a + 8, b - 8)
  {
  }

  lemma CutShapes(m: Memory, bs: Blocks, a: int, n: int)
    requires a in bs && CanCut(bs, a, n) && BlockWords(m, a, bs[a])
    ensures Shape(a, bs[a].(size := n, hasNext := true))
            && Shape(a + n, Block(bs[a].size - n, true, a, bs[a].hasNext, Off, true))
    ensures Mapped(m, a, a + n) && Mapped(m, a + n, a + bs[a].size) && 0 <= n <= bs[a].size && 0 < a
    ensures var l := bs[a].link;
            l.On? ==> a + 8 in m && a + 16 in m && m[a + 8] == Ptr(l.next) && m[a + 16] == Ptr(l.prior)
  {
  }

  lemma Reprev(m: Memory, a: int, b: Block, p: int)
    requires BlockWords(m, a, b) && (b.prev != 0 <==> p != 0)
    ensures BlockWords(m, a, b.(prev := p))
  {
  }

  lemma Inside(bs: Blocks, a: int, w: int)
    requires Spaced(bs) && a in bs && a < w < a + bs[a].size
    ensures w !in bs
  {
    assert w in bs ==> Apart(bs, a, w);
  }

  lemma CutWords(m: Memory, bs: Blocks, a: int, n: int)
    requires Ground(m, bs) && a in bs && CanCut(bs, a, n)
    ensures Words(CutMemory(m, bs, a, n), Cut(bs, a, n))
    ensures Undisturbed(m, bs, CutMemory(m, bs, a, n), Cut(bs, a, n), {a, a + n})
    ensures Same(m, CutMemory(m, bs, a, n), a + 8, a + n - 8)
  {
    hide BlockWords, Spaced, Outside, CutMemory, Tiled, Linked, Same;
    assert BlockWords(m, a, bs[a]);
    CutShapes(m, bs, a, n);
    hide Shape;
    CutWordsHere(m, bs, a, n);
    Inside(bs, a, a + n);
    var p, cs := CutMemory(m, bs, a, n), Cut(bs, a, n);
    forall c | c in cs
      ensures BlockWords(p, c, cs[c])
      ensures c in bs && c != a ==> Same(m, p, c + 8, c + bs[c].size - 8)
    {
      if c in bs && c != a {
        FarWords(m, p, bs, a, c);
        SameInner(m, p, c, c + bs[c].size);
        Reprev2(p, bs, a, c, n);
      }
    }
  }

  lemma SameInner(m: Memory, n: Memory, lo: int, hi: int)
    requires Same(m, n, lo, hi)
    ensures Same(m, n, lo + 8, hi - 8)
  {
  }

  lemma Reprev2(p: Memory, bs: Blocks, a: int, c: int, n: int)
    requires a in bs && c in bs && c != a && c != a + n && Linked(bs) && BlockWords(p, c, bs[c]) && a > 0 && n >= 0
    ensures c in Cut(bs, a, n) && BlockWords(p, c, Cut(bs, a, n)[c])
  {
    hide BlockWords;
    if bs[a].hasNext && c == a + bs[a].size {
      assert Neighbours(bs, a);
      Reprev(p, c, bs[c], a + n);
    }
  }

  lemma CutSpaced(bs: Blocks, a: int, n: int)
    requires Spaced(bs) && a in bs && CanCut(bs, a, n)
    ensures Spaced(Cut(bs, a, n))
  {
    var cs := Cut(bs, a, n);
    forall x, y | x in cs && y in cs
      ensures Apart(cs, x, y)
    {
      var x0, y0 := if x == a + n then a else x, if y == a + n then a else y;
      assert Apart(bs, x0, y0) && Apart(bs, y0, x0);
    }
  }

  lemma CutLinked(bs: Blocks, a: int, n: int)
    requires Spaced(bs) && Linked(bs) && a in bs && CanCut(bs, a, n) && a > 0
    ensures Linked(Cut(bs, a, n))
  {
    Inside(bs, a, a + n);
    hide Spaced;
    var cs := Cut(bs, a, n);
    assert Neighbours(bs, a);
    forall x | x in cs
      ensures Neighbours(cs, x)
    {
      if x != a + n {
        assert Neighbours(bs, x);
      }
    }
  }

  lemma CutTiled(m: Memory, bs: Blocks, p: Memory, a: int, n: int)
    requires Tiled(m, bs) && p.Keys == m.Keys && a in bs && CanCut(bs, a, n) && (a + n) !in bs
    ensures Tiled(p, Cut(bs, a, n))
  {
    var cs := Cut(bs, a, n);
    forall w | w in p
      ensures Covered(cs, w)
    {
      assert Covered(bs, w);
      var x :| x in bs && x <= w < x + bs[x].size;
      var y := if x == a && w >= a + n then a + n else x;
      assert y in cs && y <= w < y + cs[y].size;
    }
  }

  lemma CutGround(m: Memory, bs: Blocks, a: int, n: int)
    requires Ground(m, bs) && a in bs && CanCut(bs, a, n)
    ensures Ground(CutMemory(m, bs, a, n), Cut(bs, a, n))
    ensures Undisturbed(m, bs, CutMemory(m, bs, a, n), Cut(bs, a, n), {a, a + n})
    ensures Same(m, CutMemory(m, bs, a, n), a + 8, a + n - 8)
  {
    hide Spaced, Linked, Tiled, Words, Cut, CutMemory, Undisturbed, Same;
    assert 0 < a && CutMemory(m, bs, a, n).Keys == m.Keys by {
      CutKeys(m, bs, a, n);
    }
    CutWords(m, bs, a, n);
    CutSpaced(bs, a, n);
    CutLinked(bs, a, n);
    Inside(bs, a, a + n);
    CutTiled(m, bs, CutMemory(m, bs, a, n), a, n);
  }

  lemma CutKeys(m: Memory, bs: Blocks, a: int, n: int)
    requires Words(m, bs) && a in bs && CanCut(bs, a, n)
    ensures 0 < a && CutMemory(m, bs, a, n).Keys == m.Keys
  {
    hide BlockWords;
    assert BlockWords(m, a, bs[a]);
    CutWordsHere(m, bs, a, n);
    CutShapes(m, bs, a, n);
  }
}
