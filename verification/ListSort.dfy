/**
 src/ls.c: sorting a doubly linked list. Long lists are split and merged by relinking
 nodes; short ones exchange data in place.
 */
module ListSort {
  import opened Options

  const MERGELIMIT := 24

  class Node<T> {
    var data: T
    var n: Node?<T>
    var p: Node?<T>

    constructor (data: T)
      ensures this.data == data && n == null && p == null
    {
      this.data, n, p := data, null, null;
    }
  }

  // --- values ---

  /** `cmp` is a total preorder. */
  ghost predicate Ordering<T(!new)>(cmp: (T, T) -> int) {
    && (forall x, y :: cmp(x, y) <= 0 || cmp(y, x) <= 0)
    && (forall x, y, z :: cmp(x, y) <= 0 && cmp(y, z) <= 0 ==> cmp(x, z) <= 0)
  }

  ghost predicate Sorted<T(!new)>(d: seq<T>, cmp: (T, T) -> int) {
    forall i, j :: 0 <= i < j < |d| ==> cmp(d[i], d[j]) <= 0
  }

  /** The stable merge of two sequences. */
  function Merged<T(!new)>(a: seq<T>, b: seq<T>, cmp: (T, T) -> int): seq<T>
    decreases |a| + |b|
  {
    if b == [] then a
    else if a == [] then b
    else if cmp(a[0], b[0]) <= 0 then [a[0]] + Merged(a[1..], b, cmp)
    else [b[0]] + Merged(a, b[1..], cmp)
  }

  lemma {:induction false} MergedMultiset<T(!new)>(a: seq<T>, b: seq<T>, cmp: (T, T) -> int)
    ensures multiset(Merged(a, b, cmp)) == multiset(a) + multiset(b)
    decreases |a| + |b|
  {
    if a != [] && b != [] {
      if cmp(a[0], b[0]) <= 0 {
        MergedMultiset(a[1..], b, cmp);
        Cons(a[0], a[1..]);
        Cons(a[0], Merged(a[1..], b, cmp));
        assert a == [a[0]] + a[1..];
      } else {
        MergedMultiset(a, b[1..], cmp);
        Cons(b[0], b[1..]);
        Cons(b[0], Merged(a, b[1..], cmp));
        assert b == [b[0]] + b[1..];
      }
    }
  }

  lemma Cons<T>(x: T, s: seq<T>)
    ensures multiset([x] + s) == multiset{x} + multiset(s)
  {
  }

  lemma {:induction false} MergedMembers<T(!new)>(a: seq<T>, b: seq<T>, cmp: (T, T) -> int, x: T)
    requires x in Merged(a, b, cmp)
    ensures x in a || x in b
  {
    MergedMultiset(a, b, cmp);
    assert x in multiset(Merged(a, b, cmp));
  }

  lemma SortedHead<T(!new)>(x: T, d: seq<T>, cmp: (T, T) -> int)
    requires Sorted(d, cmp) && forall y :: y in d ==> cmp(x, y) <= 0
    ensures Sorted([x] + d, cmp)
  {
  }

  lemma {:induction false} MergedSorted<T(!new)>(a: seq<T>, b: seq<T>, cmp: (T, T) -> int)
    requires Ordering(cmp) && Sorted(a, cmp) && Sorted(b, cmp)
    ensures Sorted(Merged(a, b, cmp), cmp)
    decreases |a| + |b|
  {
    if a != [] && b != [] {
      if cmp(a[0], b[0]) <= 0 {
        MergedSorted(a[1..], b, cmp);
        forall y | y in Merged(a[1..], b, cmp)
          ensures cmp(a[0], y) <= 0
        {
          MergedMembers(a[1..], b, cmp, y);
          HeadBelow(a, b, cmp, y);
        }
        SortedHead(a[0], Merged(a[1..], b, cmp), cmp);
      } else {
        MergedSorted(a, b[1..], cmp);
        forall y | y in Merged(a, b[1..], cmp)
          ensures cmp(b[0], y) <= 0
        {
          MergedMembers(a, b[1..], cmp, y);
          HeadBelow(b, a, cmp, y);
        }
        SortedHead(b[0], Merged(a, b[1..], cmp), cmp);
      }
    }
  }

  lemma HeadBelow<T(!new)>(a: seq<T>, b: seq<T>, cmp: (T, T) -> int, y: T)
    requires Ordering(cmp) && Sorted(a, cmp) && Sorted(b, cmp) && a != [] && b != [] && cmp(a[0], b[0]) <= 0
    requires y in a[1..] || y in b
    ensures cmp(a[0], y) <= 0
  {
    if y in a[1..] {
      var i :| 0 <= i < |a| - 1 && a[1..][i] == y;
      assert a[i + 1] == y;
    } else {
      var i :| 0 <= i < |b| && b[i] == y;
      assert i > 0 ==> cmp(b[0], b[i]) <= 0;
    }
  }

  // --- nodes ---

  ghost function NextOf<T>(ns: seq<Node<T>>, i: int): Node?<T> {
    if 0 <= i && i + 1 < |ns| then ns[i + 1] else null
  }

  ghost function HeadOf<T>(ns: seq<Node<T>>): Node?<T> {
    if ns == [] then null else ns[0]
  }

  ghost predicate Distinct<T>(ns: seq<Node<T>>) {
    forall i, j :: 0 <= i < j < |ns| ==> ns[i] != ns[j]
  }

  /** The nodes hold these values. */
  ghost predicate Holds<T(!new)>(ns: seq<Node<T>>, d: seq<T>)
    reads ns
  {
    |d| == |ns| && forall i :: 0 <= i < |ns| ==> ns[i].data == d[i]
  }

  ghost predicate Forward<T>(ns: seq<Node<T>>)
    reads ns
  {
    forall i :: 0 <= i < |ns| ==> ns[i].n == NextOf(ns, i)
  }

  /** Back pointers, the one of the first node aside. */
  ghost predicate Backward<T>(ns: seq<Node<T>>)
    reads ns
  {
    forall i :: 1 <= i < |ns| ==> ns[i].p == ns[i - 1]
  }

  ghost predicate List<T(!new)>(ns: seq<Node<T>>, d: seq<T>)
    reads ns
  {
    Distinct(ns) && Holds(ns, d) && Forward(ns) && Backward(ns)
  }

  ghost predicate Apart<T>(a: seq<Node<T>>, b: seq<Node<T>>) {
    forall x :: x in a ==> x !in b
  }

  /** The merged part: linked both ways, the last node's `n` still open. */
  ghost predicate Open<T(!new)>(r: seq<Node<T>>, d: seq<T>)
    reads r
  {
    && Distinct(r) && Holds(r, d) && Backward(r)
    && (forall i :: 0 <= i < |r| - 1 ==> r[i].n == r[i + 1])
    && (r != [] ==> r[0].p == null)
  }

  /** What is left of one of the two lists. */
  ghost predicate Rest<T(!new)>(a: seq<Node<T>>, d: seq<T>)
    reads a
  {
    Distinct(a) && Holds(a, d) && Forward(a)
  }

  /** Takes the first node of a list: what remains is again a list. */
  lemma RestTail<T(!new)>(a: seq<Node<T>>, d: seq<T>)
    requires Rest(a, d) && a != []
    ensures Rest(a[1..], d[1..]) && a[0].n == HeadOf(a[1..]) && a[0] !in a[1..] && a[0].data == d[0]
  {
    assert forall i :: 0 <= i < |a| - 1 ==> a[1..][i] == a[i + 1];
    forall i | 0 <= i < |a| - 1
      ensures a[1..][i].n == NextOf(a[1..], i)
    {
      assert a[i + 1].n == NextOf(a, i + 1);
    }
    assert a[0].n == NextOf(a, 0);
  }

  /** Links `next` behind `result`, or starts the merged list with it. */
  method Attach<T(!new)>(result: Node?<T>, next: Node<T>, ghost r: seq<Node<T>>, ghost d: seq<T>)
    requires Open(r, d) && next !in r && (if r == [] then result == null else result == r[|r| - 1])
    modifies {result, next}
    ensures Open(r + [next], d + [next.data]) && next.n == old(next.n) && next.data == old(next.data)
  {
    if result == null {
      next.p := null;
    } else {
      result.n := next;
      next.p := result;
    }
    assert forall i :: 0 <= i < |r| ==> (r + [next])[i] == r[i];
  }

  lemma MergedStep<T(!new)>(v: seq<T>, a: seq<T>, b: seq<T>, cmp: (T, T) -> int)
    ensures a != [] && (b == [] || cmp(a[0], b[0]) <= 0)
            ==> v + Merged(a, b, cmp) == v + [a[0]] + Merged(a[1..], b, cmp)
    ensures b != [] && (a == [] || cmp(a[0], b[0]) > 0) ==> v + Merged(a, b, cmp) == v + [b[0]] + Merged(a, b[1..], cmp)
  {
    if a != [] && (b == [] || cmp(a[0], b[0]) <= 0) {
      assert Merged(a, b, cmp) == [a[0]] + Merged(a[1..], b, cmp);
    }
    if b != [] && (a == [] || cmp(a[0], b[0]) > 0) {
      assert Merged(a, b, cmp) == [b[0]] + Merged(a, b[1..], cmp);
    }
  }

  lemma ApartTail<T>(a: seq<Node<T>>, b: seq<Node<T>>, r: seq<Node<T>>)
    requires a != [] && Distinct(a) && Apart(a, b) && Apart(r, a) && Apart(r, b)
    ensures a[0] !in r && Apart(a[1..], b) && Apart(r + [a[0]], a[1..]) && Apart(r + [a[0]], b)
  {
    assert forall i :: 1 <= i < |a| ==> a[i] != a[0];
    assert a[0] !in a[1..];
  }

  /** `_merge`. */
  method Merge<T(!new)>(head1: Node?<T>, head2: Node?<T>, cmp: (T, T) -> int,
                        ghost xs: seq<Node<T>>, ghost ys: seq<Node<T>>, ghost dx: seq<T>, ghost dy: seq<T>)
    returns (head: Node?<T>, ghost r: seq<Node<T>>)
    requires Rest(xs, dx) && Rest(ys, dy) && Apart(xs, ys) && head1 == HeadOf(xs) && head2 == HeadOf(ys)
    modifies xs, ys
    ensures List(r, Merged(dx, dy, cmp)) && head == HeadOf(r) && (r != [] ==> r[0].p == null)
    ensures forall x :: x in r ==> x in xs || x in ys
  {
    hide Rest, Open, Merged, Backward, Holds, Distinct;
    var first, second, result := head1, head2, null;
    head, r := null, [];
    ghost var a, b, va, vb, v := xs, ys, dx, dy, [];
    OpenNone<T>();
    while first != null || second != null
      invariant first == HeadOf(a) && second == HeadOf(b) && Rest(a, va) && Rest(b, vb) && Open(r, v)
      invariant Apart(a, b) && Apart(b, a) && Apart(r, a) && Apart(r, b)
      invariant (forall x :: x in r || x in a || x in b ==> x in xs || x in ys)
      invariant head == HeadOf(r) && result == if r == [] then null else r[|r| - 1]
      invariant v + Merged(va, vb, cmp) == Merged(dx, dy, cmp)
      decreases |a| + |b|
    {
      MergedStep(v, va, vb, cmp);
      RestLen(a, va);
      RestLen(b, vb);
      var next: Node<T>;
      if second == null || (first != null && cmp(first.data, second.data) <= 0) {
        RestTail(a, va);
        ApartTail(a, b, r);
        next := first;
        first := first.n;
        a, va := a[1..], va[1..];
      } else {
        RestTail(b, vb);
        ApartTail(b, a, r);
        next := second;
        second := second.n;
        b, vb := b[1..], vb[1..];
      }
      assert result != null ==> result in r;
      assert result !in a && result !in b && next !in a && next !in b;
      Attach(result, next, r, v);
      if head == null {
        head := next;
      }
      result := next;
      r, v := r + [next], v + [next.data];
    }
    assert result != null ==> result in r;
    MergedDone(v, va, vb, cmp, a, b);
    Close(result, r, v);
  }

  lemma OpenNone<T(!new)>()
    ensures Open<T>([], [])
  {
  }

  lemma MergedDone<T(!new)>(v: seq<T>, va: seq<T>, vb: seq<T>, cmp: (T, T) -> int, a: seq<Node<T>>, b: seq<Node<T>>)
    requires Rest(a, va) && Rest(b, vb) && HeadOf(a) == null && HeadOf(b) == null
    ensures v + Merged(va, vb, cmp) == v
  {
  }

  /** The merged list ends at the node attached last. */
  method Close<T(!new)>(last: Node?<T>, ghost r: seq<Node<T>>, ghost d: seq<T>)
    requires Open(r, d) && (if r == [] then last == null else last == r[|r| - 1])
    modifies {last}
    ensures List(r, d) && (r != [] ==> r[0].p == null)
  {
    if last != null {
      last.n := null;
    }
  }

  lemma RestLen<T(!new)>(a: seq<Node<T>>, d: seq<T>)
    requires Rest(a, d)
    ensures |a| == |d| && Distinct(a) && (a != [] ==> a[0].data == d[0])
  {
  }

  // --- the exchange sort of short lists ---

  function Swap<T>(d: seq<T>, i: nat, j: nat): seq<T>
    requires i < |d| && j < |d|
  {
    d[i := d[j]][j := d[i]]
  }

  lemma SwapMultiset<T>(d: seq<T>, i: nat, j: nat)
    requires i < j < |d|
    ensures multiset(Swap(d, i, j)) == multiset(d)
  {
    UpdateMultiset(d, i, d[j]);
    UpdateMultiset(d[i := d[j]], j, d[i]);
    Exchange(multiset(d), d[i], d[j]);
  }

  lemma UpdateMultiset<T>(d: seq<T>, i: nat, x: T)
    requires i < |d|
    ensures multiset(d[i := x]) == multiset(d) - multiset{d[i]} + multiset{x} && d[i] in multiset(d)
  {
  }

  lemma Exchange<T>(m: multiset<T>, a: T, b: T)
    requires a in m
    ensures m - multiset{a} + multiset{b} - multiset{b} + multiset{a} == m
  {
  }

  /** The first `i` values are in their final order, and the i-th is no greater than
      those after it and before `j`. */
  ghost predicate Settled<T(!new)>(d: seq<T>, i: int, j: int, cmp: (T, T) -> int) {
    && (forall x, y :: 0 <= x < i && x < y < |d| ==> cmp(d[x], d[y]) <= 0)
    && (forall y :: 0 <= i < y < j && y < |d| ==> cmp(d[i], d[y]) <= 0)
  }

  lemma SettledSwap<T(!new)>(d: seq<T>, i: nat, j: nat, cmp: (T, T) -> int)
    requires Ordering(cmp) && i < j < |d| && Settled(d, i, j, cmp)
    ensures cmp(d[i], d[j]) <= 0 ==> Settled(d, i, j + 1, cmp)
    ensures cmp(d[i], d[j]) > 0 ==> Settled(Swap(d, i, j), i, j + 1, cmp)
  {
    if cmp(d[i], d[j]) > 0 {
      SettledBefore(d, i, j, cmp);
      SettledHere(d, i, j, cmp);
    }
  }

  /** A swap behind position `x` leaves it no greater than what follows. */
  lemma SettledBefore<T(!new)>(d: seq<T>, i: nat, j: nat, cmp: (T, T) -> int)
    requires i < j < |d| && Settled(d, i, j, cmp)
    ensures var e := Swap(d, i, j); forall x, y :: 0 <= x < i && x < y < |e| ==> cmp(e[x], e[y]) <= 0
  {
    hide Swap;
    SwapAt(d, i, j);
    var e := Swap(d, i, j);
    forall x, y | 0 <= x < i && x < y < |e|
      ensures cmp(e[x], e[y]) <= 0
    {
      assert e[x] == d[x];
      assert e[y] == d[if y == i then j else if y == j then i else y];
    }
  }

  lemma SettledHere<T(!new)>(d: seq<T>, i: nat, j: nat, cmp: (T, T) -> int)
    requires Ordering(cmp) && i < j < |d| && Settled(d, i, j, cmp) && cmp(d[i], d[j]) > 0
    ensures var e := Swap(d, i, j); forall y :: i < y <= j ==> cmp(e[i], e[y]) <= 0
  {
    hide Swap, Ordering;
    SwapAt(d, i, j);
    var e := Swap(d, i, j);
    forall y | i < y <= j
      ensures cmp(e[i], e[y]) <= 0
    {
      if y < j {
        assert e[y] == d[y];
        Below(d[i], d[j], d[y], cmp);
      } else {
        Below(d[i], d[j], d[i], cmp);
      }
    }
  }

  lemma Below<T(!new)>(x: T, y: T, z: T, cmp: (T, T) -> int)
    requires Ordering(cmp) && cmp(x, y) > 0 && (cmp(x, z) <= 0 || x == z)
    ensures cmp(y, z) <= 0
  {
    assert cmp(y, x) <= 0;
  }

  lemma SettledRow<T(!new)>(d: seq<T>, i: nat, cmp: (T, T) -> int)
    requires i < |d| && Settled(d, i, |d|, cmp)
    ensures Settled(d, i + 1, i + 2, cmp)
  {
  }

  /** `ls_insertion_sort_iter`: data moves, nodes stay. */
  method ExchangeSort<T(!new)>(head: Node?<T>, cmp: (T, T) -> int, ghost ns: seq<Node<T>>, ghost d: seq<T>)
    returns (ghost e: seq<T>)
    requires List(ns, d) && head == HeadOf(ns) && Ordering(cmp)
    modifies ns`data
    ensures List(ns, e) && Sorted(e, cmp) && multiset(e) == multiset(d)
  {
    hide Ordering, Settled, Swap, List;
    var it := head;
    ghost var i := 0;
    e := d;
    SettledNone(d, cmp);
    while it != null
      invariant 0 <= i <= |ns| && it == NodeAt(ns, i)
      invariant List(ns, e) && multiset(e) == multiset(d) && Settled(e, i, i + 1, cmp)
      decreases |ns| - i
    {
      ListAt(ns, e, i);
      e := ExchangeRow(it, cmp, ns, e, i);
      ListAt(ns, e, i);
      SettledRow(e, i, cmp);
      it := it.n;
      i := i + 1;
    }
    ListLen(ns, e);
    SettledAll(e, cmp);
  }

  lemma ListLen<T(!new)>(ns: seq<Node<T>>, d: seq<T>)
    requires List(ns, d)
    ensures |d| == |ns|
  {
  }

  ghost function NodeAt<T>(ns: seq<Node<T>>, i: int): Node?<T> {
    if 0 <= i < |ns| then ns[i] else null
  }

  /** The inner loop: the i-th node ends up with the least of the values from it on. */
  method ExchangeRow<T(!new)>(it: Node<T>, cmp: (T, T) -> int, ghost ns: seq<Node<T>>, ghost d: seq<T>, ghost i: nat)
    returns (ghost e: seq<T>)
    requires List(ns, d) && i < |ns| && it == ns[i] && Ordering(cmp) && Settled(d, i, i + 1, cmp)
    modifies ns`data
    ensures List(ns, e) && multiset(e) == multiset(d) && Settled(e, i, |e|, cmp)
  {
    hide Ordering, Settled, Swap, List;
    e := d;
    ListAt(ns, e, i);
    var it2 := it.n;
    ghost var j := i + 1;
    while it2 != null
      invariant i < j <= |ns| && it2 == NodeAt(ns, j)
      invariant List(ns, e) && multiset(e) == multiset(d) && Settled(e, i, j, cmp)
      decreases |ns| - j
    {
      ListAt(ns, e, i);
      ListAt(ns, e, j);
      SettledSwap(e, i, j, cmp);
      if cmp(it.data, it2.data) > 0 {
        SwapMultiset(e, i, j);
        SwapData(it, it2, ns, e, i, j);
        e := Swap(e, i, j);
      }
      ListAt(ns, e, j);
      it2 := it2.n;
      j := j + 1;
    }
    ListLen(ns, e);
  }

  lemma ListAt<T(!new)>(ns: seq<Node<T>>, d: seq<T>, i: nat)
    requires List(ns, d) && i < |ns|
    ensures |d| == |ns| && ns[i].data == d[i] && ns[i].n == NodeAt(ns, i + 1)
  {
  }

  method SwapData<T(!new)>(x: Node<T>, y: Node<T>, ghost ns: seq<Node<T>>, ghost d: seq<T>, ghost i: nat, ghost j: nat)
    requires List(ns, d) && i < j < |ns| && |d| == |ns| && x == ns[i] && y == ns[j]
    modifies x`data, y`data
    ensures List(ns, Swap(d, i, j))
  {
    hide Swap;
    SwapAt(d, i, j);
    var t := x.data;
    x.data := y.data;
    y.data := t;
  }

  lemma SwapAt<T>(d: seq<T>, i: nat, j: nat)
    requires i < j < |d|
    ensures var e := Swap(d, i, j);
            |e| == |d| && e[i] == d[j] && e[j] == d[i] && forall x :: 0 <= x < |d| && x != i && x != j ==> e[x] == d[x]
  {
  }

  lemma SettledNone<T(!new)>(d: seq<T>, cmp: (T, T) -> int)
    ensures Settled(d, 0, 1, cmp)
  {
  }

  lemma SettledAll<T(!new)>(d: seq<T>, cmp: (T, T) -> int)
    requires Settled(d, |d|, |d| + 1, cmp)
    ensures Sorted(d, cmp)
  {
  }

  // --- merge sort ---

  lemma ListParts<T(!new)>(ns: seq<Node<T>>, d: seq<T>, k: nat)
    requires List(ns, d) && k <= |ns|
    ensures |d| == |ns| && List(ns[k..], d[k..]) && Apart(ns[..k], ns[k..])
  {
    var t := ns[k..];
    assert forall i :: 0 <= i < |t| ==> t[i] == ns[k + i];
    forall i | 0 <= i < |t|
      ensures t[i].n == NextOf(t, i) && t[i].data == d[k..][i] && (i > 0 ==> t[i].p == t[i - 1])
    {
      assert ns[k + i].n == NextOf(ns, k + i);
    }
  }

  /** Ends the list behind `slow`. */
  method CutAfter<T(!new)>(slow: Node<T>, ghost ns: seq<Node<T>>, ghost d: seq<T>, ghost k: nat)
    requires List(ns, d) && k + 1 <= |ns| && slow == ns[k] && |d| == |ns|
    modifies slow`n
    ensures k + 1 < |ns| ==> Halves(ns, d, k + 1)
  {
    ghost var a, b := ns[..k + 1], ns[k + 1..];
    ListParts(ns, d, k + 1);
    ListFront(ns, d, k);
    EndHere(slow, a, d[..k + 1], b, d[k + 1..]);
  }

  lemma ListFront<T(!new)>(ns: seq<Node<T>>, d: seq<T>, k: nat)
    requires List(ns, d) && k + 1 <= |ns| && |d| == |ns|
    ensures var a := ns[..k + 1];
            && a[k] == ns[k] && Distinct(a) && Holds(a, d[..k + 1]) && Backward(a)
            && forall i :: 0 <= i < |a| - 1 ==> a[i].n == a[i + 1]
  {
    assert forall i :: 0 <= i <= k ==> ns[i].n == NextOf(ns, i);
  }

  method EndHere<T(!new)>(slow: Node<T>, ghost a: seq<Node<T>>, ghost da: seq<T>, ghost b: seq<Node<T>>,
                          ghost db: seq<T>)
    requires a != [] && slow == a[|a| - 1] && Distinct(a) && Holds(a, da) && Backward(a) && List(b, db) && Apart(a, b)
    requires forall i :: 0 <= i < |a| - 1 ==> a[i].n == a[i + 1]
    modifies slow`n
    ensures List(a, da) && List(b, db)
  {
    assert slow in a && slow !in b;
    slow.n := null;
  }

  /** The slow and fast walk of `_sdb_list_split`. */
  method Middle<T(!new)>(head: Node<T>, ghost ns: seq<Node<T>>, ghost d: seq<T>) returns (slow: Node<T>, count: nat)
    requires List(ns, d) && |ns| >= 2 && head == ns[0]
    ensures count + 1 < |ns| && slow == ns[count] && count == (|ns| - 1) / 2
  {
    hide List;
    var fast := head;
    slow, count := head, 0;
    ListAt(ns, d, 0);
    ListAt(ns, d, 1);
    while fast.n != null && fast.n.n != null
      invariant 2 * count < |ns| && slow == ns[count] && fast == ns[2 * count] && List(ns, d)
      decreases |ns| - count
    {
      ListAt(ns, d, 2 * count);
      ListAt(ns, d, 2 * count + 1);
      ListAt(ns, d, count);
      fast := fast.n.n;
      slow := slow.n;
      count := count + 1;
    }
    ListAt(ns, d, 2 * count);
    if 2 * count + 1 < |ns| {
      ListAt(ns, d, 2 * count + 1);
    }
  }

  /** `_sdb_list_split`: two halves, null when they would be short, and the list itself when there
      is nothing to split. */
  method SplitList<T(!new)>(head: Node?<T>, ghost ns: seq<Node<T>>, ghost d: seq<T>)
    returns (second: Node?<T>, ghost k: nat)
    requires List(ns, d) && head == HeadOf(ns)
    modifies ns`n
    ensures |ns| < 2 ==> second == head
    ensures |ns| >= 2 ==> (second == null <==> |ns| <= 2 * MERGELIMIT)
    ensures |ns| <= 2 * MERGELIMIT ==> List(ns, d)
    ensures |ns| > 2 * MERGELIMIT ==> k == (|ns| + 1) / 2 && Halves(ns, d, k) && second == ns[k]
  {
    hide List;
    k := (|ns| + 1) / 2;
    if head == null {
      return head, k;
    }
    ListAt(ns, d, 0);
    if head.n == null {
      return head, k;
    }
    var slow, count := Middle(head, ns, d);
    if count < MERGELIMIT {
      return null, k;
    }
    ListAt(ns, d, count);
    second := slow.n;
    CutAfter(slow, ns, d, count);
  }

  ghost predicate Halves<T(!new)>(ns: seq<Node<T>>, d: seq<T>, k: nat)
    reads ns
  {
    && 0 < k < |ns| && |d| == |ns|
    && List(ns[..k], d[..k]) && List(ns[k..], d[k..]) && Apart(ns[..k], ns[k..])
  }

  ghost function Nodes<T>(ns: seq<Node<T>>): set<Node<T>> {
    set x | x in ns
  }

  /** `_merge_sort`. */
  method MergeSort<T(!new)>(head: Node?<T>, cmp: (T, T) -> int, ghost ns: seq<Node<T>>, ghost d: seq<T>,
                            ghost fp: set<Node<T>>)
    returns (r: Node?<T>, ghost rs: seq<Node<T>>, ghost e: seq<T>)
    requires List(ns, d) && head == HeadOf(ns) && Ordering(cmp) && Nodes(ns) <= fp
    modifies fp
    ensures List(rs, e) && Sorted(e, cmp) && multiset(e) == multiset(d) && r == HeadOf(rs) && Nodes(rs) <= fp
    ensures rs != [] ==> rs[0].p == null || (rs == ns && rs[0].p == old(ns[0].p))
    decreases |ns|
  {
    hide List, Ordering, Sorted, Merged;
    ListLen(ns, d);
    if head == null || head.n == null {
      if head != null {
        OneLong(ns, d);
      }
      Short(d, cmp);
      return head, ns, d;
    }
    TwoLong(ns, d);
    var second;
    ghost var k;
    assert forall x :: x in ns ==> x in Nodes(ns);
    second, k := SplitList(head, ns, d);
    if second == null {
      e := ExchangeSort(head, cmp, ns, d);
      return head, ns, e;
    }
    r, rs, e := SortHalves(head, second, cmp, ns, d, k, fp);
  }

  method SortHalves<T(!new)>(head: Node<T>, second: Node<T>, cmp: (T, T) -> int, ghost ns: seq<Node<T>>,
                             ghost d: seq<T>, ghost k: nat, ghost fp: set<Node<T>>)
    returns (r: Node?<T>, ghost rs: seq<Node<T>>, ghost e: seq<T>)
    requires Halves(ns, d, k) && head == ns[0] && second == ns[k] && Ordering(cmp) && Nodes(ns) <= fp
    modifies fp
    ensures List(rs, e) && Sorted(e, cmp) && multiset(e) == multiset(d) && r == HeadOf(rs) && Nodes(rs) <= fp
    ensures rs != [] ==> rs[0].p == null
    decreases |ns|, 0
  {
    hide List, Ordering, Sorted, Merged, Rest, Apart;
    ghost var a, b := ns[..k], ns[k..];
    ghost var fa, fb := Nodes(a), Nodes(b);
    NodesParts(ns, k);
    ghost var ra, rb, ea, eb;
    var h1, h2;
    h1, ra, ea := MergeSort(head, cmp, a, d[..k], fa);
    h2, rb, eb := MergeSort(second, cmp, b, d[k..], fb);
    Rejoin(ra, rb, fa, fb, ea, eb);
    r, rs := Merge(h1, h2, cmp, ra, rb, ea, eb);
    e := Merged(ea, eb, cmp);
    MergedSorted(ea, eb, cmp);
    MergedMultiset(ea, eb, cmp);
    assert d == d[..k] + d[k..];
  }

  lemma NodesParts<T>(ns: seq<Node<T>>, k: nat)
    requires k <= |ns| && Apart(ns[..k], ns[k..])
    ensures Nodes(ns[..k]) !! Nodes(ns[k..]) && Nodes(ns[..k]) + Nodes(ns[k..]) <= Nodes(ns)
  {
  }

  lemma Short<T(!new)>(d: seq<T>, cmp: (T, T) -> int)
    requires |d| <= 1
    ensures Sorted(d, cmp)
  {
  }

  lemma OneLong<T(!new)>(ns: seq<Node<T>>, d: seq<T>)
    requires List(ns, d) && ns != [] && ns[0].n == null
    ensures |ns| == 1
  {
    assert ns[0].n == NextOf(ns, 0);
  }

  lemma TwoLong<T(!new)>(ns: seq<Node<T>>, d: seq<T>)
    requires List(ns, d) && ns != [] && ns[0].n != null
    ensures |ns| >= 2
  {
    assert ns[0].n == NextOf(ns, 0);
  }

  lemma Rejoin<T(!new)>(ra: seq<Node<T>>, rb: seq<Node<T>>, fa: set<Node<T>>, fb: set<Node<T>>, ea: seq<T>, eb: seq<T>)
    requires Nodes(ra) <= fa && Nodes(rb) <= fb && fa !! fb && List(ra, ea) && List(rb, eb)
    ensures Apart(ra, rb) && Rest(ra, ea) && Rest(rb, eb)
  {
    forall x | x in ra
      ensures x !in rb
    {
      assert x in Nodes(ra);
      assert x in rb ==> x in Nodes(rb);
    }
  }

  class SdbList<T(!new)> {
    var head: Node?<T>
    var tail: Node?<T>
    var length: nat
    var sorted: bool
    var cmp: Option<nat>   // which comparator the list was sorted by last
    ghost var ns: seq<Node<T>>
    ghost var values: seq<T>

    ghost predicate Valid()
      reads this, ns
    {
      && List(ns, values) && length == |ns| && head == HeadOf(ns)
      && (ns != [] ==> ns[0].p == null) && tail == if ns == [] then null else ns[|ns| - 1]
    }

    constructor ()
      ensures Valid() && values == [] && cmp == None && fresh(this)
    {
      head, tail, length, sorted, cmp := null, null, 0, false, None;
      ns, values := [], [];
    }

    /** `ls_sort`: refused, and the list left as it is, when comparator `id` was the last one used. */
    method Sort(id: nat, order: (T, T) -> int) returns (ok: bool)
      requires Valid() && Ordering(order)
      modifies this, ns
      ensures Valid() && ok == (old(cmp) != Some(id)) && cmp == Some(id)
      ensures ok ==> sorted && Sorted(values, order) && multiset(values) == multiset(old(values))
      ensures !ok ==> values == old(values) && ns == old(ns) && sorted == old(sorted)
      ensures length == old(length) && forall x :: x in ns ==> x in old(ns)
    {
      hide List, Ordering, Sorted;
      if cmp == Some(id) {
        return false;
      }
      ListLen(ns, values);
      if length > MERGELIMIT {
        MergeSortAll(order);
      } else {
        values := ExchangeSort(head, order, ns, values);
      }
      cmp, sorted, ok := Some(id), true, true;
    }

    /** `ls_append`: the mark of the last comparator stays. */
    method Append(data: T)
      requires Valid()
      modifies this, ns
      ensures Valid() && values == old(values) + [data] && !sorted && cmp == old(cmp)
      ensures |ns| == |old(ns)| + 1 && ns[..|old(ns)|] == old(ns) && fresh(ns[|old(ns)|])
    {
      hide List;
      ListLen(ns, values);
      var it := new Node(data);
      LinkBehind(tail, it, ns, values);
      tail, length, sorted := it, length + 1, false;
      if head == null {
        head := it;
      }
      ns, values := ns + [it], values + [data];
      assert ns[0].p == null && head == ns[0];
    }

    /** `ls_merge_sort`: the tail is found again by walking the list. */
    method MergeSortAll(order: (T, T) -> int)
      requires Valid() && Ordering(order) && length > 0
      modifies this, ns
      ensures Valid() && Sorted(values, order) && multiset(values) == multiset(old(values))
      ensures length == old(length) && cmp == old(cmp) && forall x :: x in ns ==> x in old(ns)
    {
      hide List, Ordering, Sorted;
      ListLen(ns, values);
      ghost var rs, e;
      head, rs, e := MergeSort(head, order, ns, values, Nodes(ns));
      assert forall x :: x in rs ==> x in Nodes(rs);
      SameSize(e, values);
      ListLen(rs, e);
      ns, values := rs, e;
      tail := LastNode(head, ns, values);
    }
  }

  /** Links `it` behind the last node, if there is one. */
  method LinkBehind<T(!new)>(tail: Node?<T>, it: Node<T>, ghost ns: seq<Node<T>>, ghost d: seq<T>)
    requires List(ns, d) && it !in ns && it.n == null && it.p == null
    requires tail == if ns == [] then null else ns[|ns| - 1]
    modifies it`p, ns`n
    ensures List(ns + [it], d + [it.data]) && it.p == tail && it.data == old(it.data)
  {
    if tail != null {
      tail.n := it;
    }
    it.p := tail;
    assert forall i :: 0 <= i < |ns| ==> (ns + [it])[i] == ns[i];
  }

  /** Sorting again by the same comparator after an `ls_append` does nothing: the list is
      in order exactly when the new element is not below any other. */
  method SortAgain<T(!new)>(list: SdbList<T>, id: nat, order: (T, T) -> int, data: T) returns (again: bool)
    requires list.Valid() && Ordering(order) && list.cmp != Some(id)
    modifies list, list.ns
    ensures list.Valid() && !again && !list.sorted
    ensures multiset(list.values) == multiset(old(list.values) + [data])
    ensures Sorted(list.values, order) <==> forall x :: x in old(list.values) ==> order(x, data) <= 0
  {
    hide List, Ordering, Sorted;
    var first := list.Sort(id, order);
    ghost var e := list.values;
    assert forall x :: x in e <==> x in old(list.values) by {
      assert forall x :: x in e <==> x in multiset(e);
      assert forall x :: x in old(list.values) <==> x in multiset(old(list.values));
    }
    assert forall i :: 0 <= i < |list.ns| ==> list.ns[i] in old(list.ns);
    list.Append(data);
    SortedSnoc(e, data, order);
    again := list.Sort(id, order);
  }

  function Ascending(x: int, y: int): int {
    x - y
  }

  /** A failing case: the list of 1 is sorted, 0 is appended, and sorting again leaves 1, 0. */
  method StaleList(list: SdbList<int>, id: nat) returns (again: bool)
    requires list.Valid() && list.values == [1] && list.cmp != Some(id)
    modifies list, list.ns
    ensures list.Valid() && !again && multiset(list.values) == multiset([1, 0]) && !Sorted(list.values, Ascending)
  {
    hide List, Sorted, Ordering;
    AscendingOrders();
    again := SortAgain(list, id, Ascending, 0);
    assert [1] + [0] == [1, 0];
    assert 1 in old(list.values) && Ascending(1, 0) > 0;
  }

  lemma AscendingOrders()
    ensures Ordering(Ascending)
  {
  }

  lemma SortedSnoc<T(!new)>(d: seq<T>, x: T, order: (T, T) -> int)
    requires Sorted(d, order)
    ensures Sorted(d + [x], order) <==> forall y :: y in d ==> order(y, x) <= 0
  {
    var e := d + [x];
    if Sorted(e, order) {
      forall y | y in d
        ensures order(y, x) <= 0
      {
        var i :| 0 <= i < |d| && d[i] == y;
        assert e[i] == y && e[|d|] == x;
      }
    }
  }

  method LastNode<T(!new)>(head: Node<T>, ghost ns: seq<Node<T>>, ghost d: seq<T>) returns (iter: Node<T>)
    requires List(ns, d) && ns != [] && head == ns[0]
    ensures iter == ns[|ns| - 1]
  {
    hide List;
    iter := head;
    ghost var i := 0;
    ListAt(ns, d, 0);
    while iter.n != null
      invariant 0 <= i < |ns| && iter == ns[i] && iter.n == NodeAt(ns, i + 1)
      decreases |ns| - i
    {
      iter := iter.n;
      i := i + 1;
      ListAt(ns, d, i);
    }
  }

  lemma SameSize<T>(a: seq<T>, b: seq<T>)
    requires multiset(a) == multiset(b)
    ensures |a| == |b|
  {
    assert |multiset(a)| == |a|;
  }
}
