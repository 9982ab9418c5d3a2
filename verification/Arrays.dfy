/**
 src/array.c: arrays kept as one string of comma-separated elements. The pointer
 scans and copies are the sequence operations on the elements.
 */
module Arrays {
  import opened Bytes
  import opened Options
  import opened ListSort

  const RS: byte := 44

  // --- strings and elements ---

  /** The elements of a non-empty string. */
  function Split(s: Str): (es: seq<Str>)
    ensures |es| > 0
    decreases |s|
  {
    var i := IndexOf(s, RS);
    if i == |s| then [s] else [s[..i]] + Split(s[i + 1..])
  }

  /** The empty string is the empty array. */
  function Elements(s: Str): seq<Str> {
    if s == [] then [] else Split(s)
  }

  /** The array with a lone empty element cannot be told from the empty one. */
  function Norm(es: seq<Str>): seq<Str> {
    if es == [[]] then [] else es
  }

  function Join(es: seq<Str>): Str {
    if es == [] then [] else if |es| == 1 then es[0] else es[0] + [RS] + Join(es[1..])
  }

  lemma {:induction false} JoinSplit(s: Str)
    ensures Join(Split(s)) == s
    decreases |s|
  {
    hide IndexOf;
    var i := IndexOf(s, RS);
    if i < |s| {
      JoinSplit(s[i + 1..]);
      assert s == s[..i] + [RS] + s[i + 1..];
      assert Split(s)[1..] == Split(s[i + 1..]);
    }
  }

  lemma {:induction false} SplitFree(s: Str, k: nat)
    requires k < |Split(s)|
    ensures RS !in Split(s)[k]
    decreases |s|
  {
    hide IndexOf;
    var i := IndexOf(s, RS);
    if i < |s| && k > 0 {
      SplitFree(s[i + 1..], k - 1);
    } else if i == |s| {
      assert s[..i] == s;
    }
  }

  /** Splitting is cutting at the separators. */
  lemma {:induction false} SplitConcat(a: Str, b: Str)
    ensures Split(a + [RS] + b) == Split(a) + Split(b)
    decreases |a|
  {
    hide IndexOf;
    var s := a + [RS] + b;
    var i := IndexOf(a, RS);
    if i == |a| {
      assert a[..i] == a;
      assert s[..i] == a && s[i] == RS;
      IndexUnique(s, RS, i);
      assert s[i + 1..] == b;
    } else {
      assert s[..i] == a[..i] && s[i] == RS;
      IndexUnique(s, RS, i);
      assert s[i + 1..] == a[i + 1..] + [RS] + b;
      SplitConcat(a[i + 1..], b);
      Assoc([a[..i]], Split(a[i + 1..]), Split(b));
    }
  }

  lemma SplitWhole(s: Str)
    requires RS !in s
    ensures Split(s) == [s]
  {
    IndexNone(s, RS);
  }

  lemma {:induction false} SplitJoin(es: seq<Str>)
    requires es != [] && forall i :: 0 <= i < |es| ==> RS !in es[i]
    ensures Split(Join(es)) == es
  {
    SplitWhole(es[0]);
    if |es| > 1 {
      SplitJoin(es[1..]);
      SplitConcat(es[0], Join(es[1..]));
    }
  }

  /** A string splits into one empty element only when it is empty. */
  lemma SplitEmpty(s: Str)
    ensures Split(s) == [[]] <==> s == []
  {
    IndexNone([], RS);
    if s != [] && Split(s) == [[]] {
      JoinSplit(s);
    }
  }

  lemma ElementsAre(s: Str)
    ensures Elements(s) == Norm(Split(s))
  {
    SplitEmpty(s);
  }

  // --- positions ---

  /** The offset at which the element `k` begins. */
  ghost predicate Begins(s: Str, k: nat, p: nat) {
    && k < |Split(s)| && p <= |s| && Split(s[p..]) == Split(s)[k..]
    && (k == 0 ==> p == 0)
    && (k > 0 ==> p > 0 && s[p - 1] == RS && Split(s[..p - 1]) == Split(s)[..k])
  }

  lemma BeginsNext(s: Str, k: nat, p: nat)
    requires Begins(s, k, p)
    ensures var i := IndexOf(s[p..], RS);
            if i == |s[p..]| then k + 1 == |Split(s)| && Split(s)[k] == s[p..]
            else Begins(s, k + 1, p + i + 1) && Split(s)[k] == s[p..p + i]
  {
    hide Split, IndexOf;
    var t := s[p..];
    var i := IndexOf(t, RS);
    SplitHead(t);
    assert Split(t)[0] == Split(s)[k];
    if i < |t| {
      Slices(s, p, i);
      SplitWhole(s[p..p + i]);
      Before(s, k, p, i);
      assert Split(s)[k + 1..] == Split(s)[k..][1..];
    }
  }

  lemma Slices(s: Str, p: nat, i: nat)
    requires p + i < |s|
    ensures s[p..][i + 1..] == s[p + i + 1..] && s[p..][..i] == s[p..p + i] && s[p..][i] == s[p + i]
  {
  }

  lemma Before(s: Str, k: nat, p: nat, i: nat)
    requires Begins(s, k, p) && p + i <= |s| && Split(s[p..p + i]) == [Split(s)[k]]
    ensures Split(s[..p + i]) == Split(s)[..k + 1]
  {
    hide Split, IndexOf;
    TakeOne(Split(s), k);
    if k > 0 {
      Around(s, p, i);
      SplitConcat(s[..p - 1], s[p..p + i]);
    }
  }

  lemma TakeOne<T>(es: seq<T>, k: nat)
    requires k < |es|
    ensures es[..k + 1] == es[..k] + [es[k]]
  {
  }

  lemma Around(s: Str, p: nat, i: nat)
    requires 0 < p && p + i <= |s| && s[p - 1] == RS
    ensures s[..p + i] == s[..p - 1] + [RS] + s[p..p + i]
  {
  }

  lemma SplitHead(t: Str)
    ensures var i := IndexOf(t, RS);
            if i == |t| then Split(t) == [t] else Split(t)[0] == t[..i] && Split(t)[1..] == Split(t[i + 1..])
                                                  && RS !in t[..i]
  {
    hide IndexOf;
  }

  /** `Aindexof`. */
  method Aindexof(s: Str, idx: int) returns (r: Option<nat>)
    ensures r.None? <==> idx < 0 || idx >= |Split(s)|
    ensures r.Some? ==> Begins(s, idx, r.value)
  {
    hide Split, Begins;
    var p, len := 0, 0;
    BeginsFirst(s);
    while true
      invariant p <= |s| && 0 <= len < |Split(s)| && Begins(s, len, p) && (idx >= 0 ==> len <= idx)
      decreases |s| - p
    {
      if len == idx {
        return Some(p);
      }
      var n := IndexOf(s[p..], RS);
      BeginsNext(s, len, p);
      if n == |s[p..]| {
        return None;
      }
      p := p + n + 1;
      len := len + 1;
      BeginsLen(s, len, p);
    }
  }

  lemma BeginsFirst(s: Str)
    ensures Begins(s, 0, 0)
  {
    assert s[0..] == s && Split(s)[0..] == Split(s);
  }

  lemma BeginsLen(s: Str, k: nat, p: nat)
    requires Begins(s, k, p)
    ensures k < |Split(s)| && p <= |s|
  {
  }

  /** `sdb_alen`. */
  method Alen(s: Str) returns (n: nat)
    ensures n == |Elements(s)|
  {
    hide Split, Begins;
    if s == [] {
      return 0;
    }
    var p := 0;
    n := 0;
    BeginsFirst(s);
    while true
      invariant p <= |s| && Begins(s, n, p)
      decreases |s| - p
    {
      var i := IndexOf(s[p..], RS);
      BeginsNext(s, n, p);
      if i == |s[p..]| {
        return n + 1;
      }
      p := p + i + 1;
      n := n + 1;
      BeginsLen(s, n, p);
    }
  }

  // --- get, insert, set, delete ---

  /** The element at an index, counted from the end when negative. */
  function Fetch(es: seq<Str>, idx: int): Option<Str> {
    var i := if idx < 0 then idx + |es| else idx;
    if 0 <= i < |es| then Some(es[i]) else None
  }

  /** `sdb_array_get`. */
  method ArrayGet(s: Str, idx: int) returns (r: Option<Str>)
    ensures r == Fetch(Elements(s), idx)
  {
    hide Split, Begins;
    if s == [] {
      return None;
    }
    var i := idx;
    if idx < 0 {
      var alen := Alen(s);
      if -idx > alen {
        return None;
      }
      i := idx + alen;
    }
    var p := Aindexof(s, i);
    if p.None? {
      return None;
    }
    BeginsLen(s, i, p.value);
    BeginsNext(s, i, p.value);
    var n := IndexOf(s[p.value..], RS);
    return Some(if n == |s[p.value..]| then s[p.value..] else s[p.value..p.value + n]);
  }

  function Blanks(n: nat): (es: seq<Str>)
    ensures |es| == n && forall i :: 0 <= i < n ==> es[i] == []
  {
    if n == 0 then [] else [[]] + Blanks(n - 1)
  }

  /** Elements inserted before an index; past the end, empty elements fill the gap. */
  function Inserted(es: seq<Str>, idx: int, vs: seq<Str>): seq<Str> {
    if es == [] then vs
    else if idx < 0 then es + vs
    else if idx <= |es| then es[..idx] + vs + es[idx..]
    else es + Blanks(idx - |es|) + vs
  }

  /** Elements put in the place of the one at an index. */
  function Placed(es: seq<Str>, idx: int, vs: seq<Str>): seq<Str> {
    if es == [] then vs
    else if idx < 0 || idx == |es| then es + vs
    else if idx < |es| then es[..idx] + vs + es[idx + 1..]
    else es + Blanks(idx - |es|) + vs
  }

  function Seps(n: nat): Str {
    if n == 0 then [] else [RS] + Seps(n - 1)
  }

  lemma {:induction false} SplitSeps(n: nat, v: Str)
    ensures Split(Seps(n) + v) == Blanks(n) + Split(v)
  {
    hide Split;
    if n == 0 {
      assert Seps(0) + v == v;
    } else {
      SplitSeps(n - 1, v);
      SplitConcat([], Seps(n - 1) + v);
      SplitWhole([]);
      assert Seps(n) + v == [] + [RS] + (Seps(n - 1) + v);
      assert [[]] + (Blanks(n - 1) + Split(v)) == Blanks(n) + Split(v);
    }
  }

  /** `sdb_array_insert` at -1, for a string that is not empty. */
  method Append(s: Str, val: Str) returns (r: Str)
    ensures Split(r) == Split(s) + Split(val)
  {
    SplitConcat(s, val);
    r := s + [RS] + val;
  }

  /** `sdb_array_insert`. */
  method ArrayInsert(s: Str, idx: int, val: Str) returns (r: Str)
    ensures Elements(r) == Norm(Inserted(Elements(s), idx, Split(val)))
  {
    hide Split, Begins, Blanks;
    if s == [] {
      ElementsAre(val);
      return val;
    }
    if idx == -1 {
      r := Append(s, val);
    } else if idx == 0 {
      SplitConcat(val, s);
      assert Split(s)[..0] + Split(val) + Split(s)[0..] == Split(val) + Split(s);
      r := val + [RS] + s;
    } else {
      var p := Aindexof(s, idx);
      if p.Some? {
        BeginsParts(s, idx, p.value);
        SplitConcat(val, s[p.value..]);
        SplitConcat(s[..p.value - 1], val + [RS] + s[p.value..]);
        r := s[..p.value - 1] + [RS] + (val + [RS] + s[p.value..]);
        assert Split(s)[..idx] + (Split(val) + Split(s)[idx..]) == Split(s)[..idx] + Split(val) + Split(s)[idx..];
      } else {
        r := ArraySet(s, idx, val);
        assert idx == |Split(s)| ==> Split(s)[..idx] + Split(val) + Split(s)[idx..] == Split(s) + Split(val);
        return;
      }
    }
    ElementsAre(r);
  }

  lemma BeginsParts(s: Str, k: nat, p: nat)
    requires Begins(s, k, p) && k > 0
    ensures 0 < p <= |s| && Split(s[p..]) == Split(s)[k..] && Split(s[..p - 1]) == Split(s)[..k]
            && s[..p] == s[..p - 1] + [RS]
  {
    hide Split, IndexOf;
    CutLast(s, p);
  }

  lemma CutLast(s: Str, p: nat)
    requires 0 < p <= |s|
    ensures s[..p] == s[..p - 1] + [s[p - 1]]
  {
  }

  /** `sdb_array_set`. */
  method ArraySet(s: Str, idx: int, val: Str) returns (r: Str)
    ensures Elements(r) == Norm(Placed(Elements(s), idx, Split(val)))
  {
    hide Split, Begins, Blanks;
    if s == [] {
      ElementsAre(val);
      return val;
    }
    var len := Alen(s);
    if idx < 0 || idx == len {
      r := Append(s, val);
    } else if idx > len {
      SplitSeps(idx - len, val);
      r := Append(s, Seps(idx - len) + val);
      assert Split(s) + (Blanks(idx - len) + Split(val)) == Split(s) + Blanks(idx - len) + Split(val);
    } else {
      r := Replace(s, idx, val);
    }
    ElementsAre(r);
  }

  /** The case of `sdb_array_set` that overwrites an element. */
  method Replace(s: Str, idx: nat, val: Str) returns (r: Str)
    requires idx < |Split(s)|
    ensures Split(r) == Split(s)[..idx] + Split(val) + Split(s)[idx + 1..]
  {
    hide Split, Begins;
    var p := Aindexof(s, idx);
    var next := Aindexof(s, idx + 1);
    var tail := val;
    if next.Some? {
      BeginsParts(s, idx + 1, next.value);
      SplitConcat(val, s[next.value..]);
      tail := val + [RS] + s[next.value..];
    }
    BeginsLen(s, idx, p.value);
    r := s[..p.value] + tail;
    if idx > 0 {
      BeginsParts(s, idx, p.value);
      SplitConcat(s[..p.value - 1], tail);
    } else {
      BeginsZero(s, p.value);
      assert r == tail;
    }
    assert next.None? ==> Split(s)[idx + 1..] == [];
    assert Split(r) == Split(s)[..idx] + Split(val) + Split(s)[idx + 1..];
  }

  lemma BeginsZero(s: Str, p: nat)
    requires Begins(s, 0, p)
    ensures p == 0
  {
  }

  /** `sdb_array_delete`; a negative index means the last element. */
  method ArrayDelete(s: Str, idx: int) returns (ok: bool, r: Str)
    ensures ok <==> s != [] && idx < |Elements(s)|
    ensures !ok ==> r == s
    ensures ok ==> var es, i := Elements(s), if idx < 0 then |Elements(s)| - 1 else idx;
                   0 <= i < |es| && Elements(r) == Norm(es[..i] + es[i + 1..])
  {
    hide Split, Begins;
    if s == [] {
      return false, s;
    }
    var i := idx;
    if idx < 0 {
      i := Alen(s);
      i := i - 1;
    }
    var p := Aindexof(s, i);
    if p.None? {
      return false, s;
    }
    r := Without(s, i, p.value);
    return true, r;
  }

  method Without(s: Str, i: nat, p: nat) returns (r: Str)
    requires Begins(s, i, p) && i < |Split(s)|
    ensures Elements(r) == Norm(Split(s)[..i] + Split(s)[i + 1..])
  {
    hide Split, Begins;
    BeginsLen(s, i, p);
    BeginsNext(s, i, p);
    var n := IndexOf(s[p..], RS);
    if n < |s[p..]| {
      BeginsParts(s, i + 1, p + n + 1);
      r := s[..p] + s[p + n + 1..];
      if i > 0 {
        BeginsParts(s, i, p);
        SplitConcat(s[..p - 1], s[p + n + 1..]);
      } else {
        BeginsZero(s, p);
        assert r == s[p + n + 1..];
        assert Split(s)[..0] + Split(s)[1..] == Split(s)[1..];
      }
    } else if p > 0 {
      BeginsPos(s, i, p);
      BeginsParts(s, i, p);
      r := s[..p - 1];
      assert Split(s)[..i] + Split(s)[i + 1..] == Split(s)[..i];
    } else {
      BeginsNull(s, i, p);
      r := [];
      assert Split(s)[..0] + Split(s)[1..] == [];
    }
    if r != [] || p > 0 || n < |s[p..]| {
      ElementsAre(r);
    }
  }

  lemma BeginsPos(s: Str, i: nat, p: nat)
    requires Begins(s, i, p) && p > 0
    ensures i > 0
  {
  }

  lemma BeginsNull(s: Str, i: nat, p: nat)
    requires Begins(s, i, p) && p == 0
    ensures i == 0
  {
  }

  // --- sorted arrays ---

  /** Characters are signed. */
  function Signed(c: byte): int {
    if c < 128 then c else c - 256
  }

  /** `astrcmp` on elements. */
  function Acmp(a: Str, b: Str): int {
    if a == [] then (if b == [] then 0 else -1)
    else if b == [] then 1
    else if a[0] != b[0] then (if Signed(a[0]) > Signed(b[0]) then 1 else -1)
    else Acmp(a[1..], b[1..])
  }

  /** `astrcmp` on strings, up to the separator or the end. */
  method Astrcmp(a: Str, b: Str) returns (r: int)
    ensures r == Acmp(Split(a)[0], Split(b)[0])
  {
    SplitHead(a);
    SplitHead(b);
    hide Split, IndexOf;
    ghost var x, y := Split(a)[0], Split(b)[0];
    HeadEnds(a);
    HeadEnds(b);
    var i := 0;
    while true
      invariant 0 <= i <= |x| && i <= |y| && Acmp(x[i..], y[i..]) == Acmp(x, y)
      decreases |x| - i
    {
      if i == |a| || a[i] == RS {
        if i == |b| || b[i] == RS {
          return 0;
        }
        return -1;
      }
      if i == |b| || b[i] == RS {
        return 1;
      }
      if a[i] != b[i] {
        return if Signed(a[i]) > Signed(b[i]) then 1 else -1;
      }
      assert x[i..][1..] == x[i + 1..] && y[i..][1..] == y[i + 1..];
      i := i + 1;
    }
  }

  /** The first element is what comes before the first separator or the end. */
  lemma HeadEnds(s: Str)
    ensures var x := Split(s)[0];
            && |x| <= |s| && x == s[..|x|] && RS !in x && (|x| < |s| ==> s[|x|] == RS)
            && forall i :: 0 <= i < |x| ==> s[i] == x[i] && x[i] != RS
  {
    SplitHead(s);
    var i := IndexOf(s, RS);
    if i == |s| {
      assert s[..i] == s;
    }
  }

  lemma {:induction false} AcmpTotal(a: Str, b: Str)
    ensures Acmp(a, b) <= 0 || Acmp(b, a) <= 0
    ensures Acmp(a, b) == 0 <==> a == b
    ensures Acmp(a, b) < 0 <==> Acmp(b, a) > 0
  {
    if a != [] && b != [] && a[0] == b[0] {
      AcmpTotal(a[1..], b[1..]);
      assert a == [a[0]] + a[1..] && b == [b[0]] + b[1..];
    }
  }

  lemma {:induction false} AcmpTrans(a: Str, b: Str, c: Str)
    requires Acmp(a, b) <= 0 && Acmp(b, c) <= 0
    ensures Acmp(a, c) <= 0
  {
    if a != [] && b != [] && c != [] && a[0] == b[0] && b[0] == c[0] {
      AcmpTrans(a[1..], b[1..], c[1..]);
    }
  }

  lemma AcmpOrders()
    ensures Ordering(Acmp)
  {
    forall x, y
      ensures Acmp(x, y) <= 0 || Acmp(y, x) <= 0
    {
      AcmpTotal(x, y);
    }
    forall x, y, z | Acmp(x, y) <= 0 && Acmp(y, z) <= 0
      ensures Acmp(x, z) <= 0
    {
      AcmpTrans(x, y, z);
    }
  }

  /** Elements, each with the separator behind it. */
  function Commas(es: seq<Str>): Str {
    if es == [] then [] else Commas(es[..|es| - 1]) + es[|es| - 1] + [RS]
  }

  lemma {:induction false} CommasConcat(a: seq<Str>, b: seq<Str>)
    ensures Commas(a + b) == Commas(a) + Commas(b)
  {
    if b == [] {
      assert a + b == a;
    } else {
      var c := b[..|b| - 1];
      assert (a + b)[..|a + b| - 1] == a + c && (a + b)[|a + b| - 1] == b[|b| - 1];
      CommasConcat(a, c);
      Assoc(Commas(a), Commas(c), b[|b| - 1]);
      Assoc(Commas(a), Commas(c) + b[|b| - 1], [RS]);
    }
  }

  lemma CommasSnoc(es: seq<Str>, k: nat, j: nat)
    requires k <= j < |es|
    ensures Commas(es[k..j + 1]) == Commas(es[k..j]) + es[j] + [RS]
  {
    assert es[k..j + 1][..j - k] == es[k..j] && es[k..j + 1][j - k] == es[j];
  }

  lemma {:induction false} CommasJoin(es: seq<Str>)
    requires es != []
    ensures Commas(es) == Join(es) + [RS]
  {
    if |es| == 1 {
      assert es[..0] == [];
    } else {
      CommasJoin(es[1..]);
      assert es == [es[0]] + es[1..];
      CommasConcat([es[0]], es[1..]);
      var one: seq<Str> := [es[0]];
      assert one[..0] == [];
      assert Commas(one) == es[0] + [RS];
      Assoc(es[0] + [RS], Join(es[1..]), [RS]);
    }
  }

  /** The scan stands at the beginning of element `k`, or at the end of the string. */
  ghost predicate At(s: Str, k: nat, p: nat) {
    if p < |s| then Begins(s, k, p) else p == |s| && k == |Elements(s)|
  }

  /** The text between two positions of the scan. */
  ghost predicate Chunk(s: Str, j: nat, lp: nat, k: nat, p: nat) {
    && j <= k <= |Elements(s)| && lp <= p <= |s|
    && (if p == |s| && lp != |s| then s[lp..p] + [RS] else s[lp..p]) == Commas(Elements(s)[j..k])
  }

  lemma ChunkNone(s: Str, k: nat, p: nat)
    requires At(s, k, p)
    ensures Chunk(s, k, p, k, p)
  {
    hide Split;
    assert s[p..p] == [] && Elements(s)[k..k] == [];
  }

  /** Past one element; an empty last one is passed with it. */
  lemma Passed(s: Str, j: nat, lp: nat, k: nat, p: nat)
    requires p < |s| && At(s, k, p) && Chunk(s, j, lp, k, p)
    ensures var i := IndexOf(s[p..], RS);
            var q := if i == |s[p..]| then |s| else p + i + 1;
            && k < |Split(s)|
            && (|| (At(s, k + 1, q) && Chunk(s, j, lp, k + 1, q))
                || (k + 2 == |Split(s)| && Split(s)[k + 1] == [] && At(s, k + 2, q) && Chunk(s, j, lp, k + 2, q)))
  {
    hide Split, IndexOf, Commas, Begins, Chunk;
    var i := IndexOf(s[p..], RS);
    BeginsLen(s, k, p);
    BeginsNext(s, k, p);
    if i == |s[p..]| {
      PassedLast(s, j, lp, k, p);
    } else {
      var q := p + i + 1;
      BeginsLen(s, k + 1, q);
      PassedInner(s, j, lp, k, p, i);
      if q == |s| {
        BeginsLast(s, k + 1);
      }
    }
  }

  lemma PassedLast(s: Str, j: nat, lp: nat, k: nat, p: nat)
    requires p < |s| && Chunk(s, j, lp, k, p) && k + 1 == |Split(s)| && Split(s)[k] == s[p..]
    ensures Chunk(s, j, lp, k + 1, |s|)
  {
    hide Split, Commas;
    Glue(s, lp, p, |s| - p);
    CommasSnoc(Split(s), j, k);
  }

  lemma PassedInner(s: Str, j: nat, lp: nat, k: nat, p: nat, i: nat)
    requires p + i < |s| && Chunk(s, j, lp, k, p) && k + 1 < |Split(s)| && Split(s)[k] == s[p..p + i] && s[p..][i] == RS
    ensures p + i + 1 < |s| ==> Chunk(s, j, lp, k + 1, p + i + 1)
    ensures p + i + 1 == |s| && Split(s)[k + 1] == [] ==> Chunk(s, j, lp, k + 2, p + i + 1)
  {
    hide Split, Commas;
    Glue(s, lp, p, i);
    CommasSnoc(Split(s), j, k);
    CommasSnoc(Split(s), j, k + 1);
    NoText(s[lp..p + i + 1]);
  }

  lemma Glue(s: Str, lp: nat, p: nat, i: nat)
    requires lp <= p && p + i <= |s|
    ensures s[lp..p] + s[p..p + i] == s[lp..p + i] && s[p..p + i] == s[p..][..i]
    ensures p + i == |s| ==> s[p..] == s[p..p + i]
    ensures p + i < |s| && s[p..][i] == RS ==> s[lp..p] + s[p..p + i] + [RS] == s[lp..p + i + 1]
  {
  }

  lemma NoText(s: Str)
    ensures s + [] + [RS] == s + [RS]
  {
  }

  lemma BeginsLast(s: Str, k: nat)
    requires Begins(s, k, |s|)
    ensures k + 1 == |Split(s)| && Split(s)[k] == []
  {
    hide Split, IndexOf;
    assert s[|s|..] == [];
    SplitWhole([]);
    assert Split(s)[k..] == [[]];
    assert Split(s)[k] == Split(s)[k..][0];
  }

  /** The inner loop of `sdb_array_add_sorted`: past the elements that are not greater. */
  method SkipUpTo(s: Str, v: Str, from: nat, ghost j: nat, ghost vs: seq<Str>) returns (p: nat, ghost k: nat)
    requires At(s, j, from) && vs != [] && vs[0] == v && RS !in v
    ensures At(s, k, p) && Chunk(s, j, from, k, p)
    ensures Elements(s)[j..k] + Merged(Elements(s)[k..], vs, Acmp) == Merged(Elements(s)[j..], vs, Acmp)
    ensures k < |Elements(s)| ==> Acmp(Elements(s)[k], v) > 0
  {
    hide At, Chunk, Merged, Split, Acmp;
    p, k := from, j;
    ChunkNone(s, j, from);
    ChunkLen(s, j, from, k, p);
    Start(Elements(s), j, vs);
    while p < |s|
      invariant p <= |s| && j <= k <= |Elements(s)| && At(s, k, p) && Chunk(s, j, from, k, p)
      invariant Elements(s)[j..k] + Merged(Elements(s)[k..], vs, Acmp) == Merged(Elements(s)[j..], vs, Acmp)
      decreases |s| - p
    {
      AtHead(s, k, p);
      SplitWhole(v);
      var c := Astrcmp(v, s[p..]);
      AcmpTotal(v, Elements(s)[k]);
      if c < 0 {
        return;
      }
      Passed(s, j, from, k, p);
      Taken(Elements(s), j, k, vs);
      if k + 1 < |Elements(s)| && Elements(s)[k + 1] == [] {
        Taken(Elements(s), j, k + 1, vs);
        AcmpLeast(v);
      }
      var i := IndexOf(s[p..], RS);
      p := if i == |s[p..]| then |s| else p + i + 1;
      k := if At(s, k + 1, p) && Chunk(s, j, from, k + 1, p) then k + 1 else k + 2;
      ChunkLen(s, j, from, k, p);
    }
    AtEnd(s, k, p);
  }

  lemma ChunkLen(s: Str, j: nat, lp: nat, k: nat, p: nat)
    requires Chunk(s, j, lp, k, p)
    ensures j <= k <= |Elements(s)| && lp <= p <= |s|
  {
  }

  lemma Start(es: seq<Str>, j: nat, vs: seq<Str>)
    requires j <= |es|
    ensures es[j..j] + Merged(es[j..], vs, Acmp) == Merged(es[j..], vs, Acmp)
  {
    hide Merged;
    assert es[j..j] == [];
  }

  lemma AtHead(s: Str, k: nat, p: nat)
    requires At(s, k, p) && p < |s|
    ensures k < |Elements(s)| && Elements(s) == Split(s) && Split(s[p..])[0] == Elements(s)[k]
  {
    hide Split;
  }

  lemma AtEnd(s: Str, k: nat, p: nat)
    requires At(s, k, p) && p >= |s|
    ensures k == |Elements(s)|
  {
    hide Split;
  }

  lemma AcmpLeast(v: Str)
    ensures Acmp([], v) <= 0
  {
  }

  /** The merge takes the element at `k` next. */
  lemma Taken(es: seq<Str>, j: nat, k: nat, vs: seq<Str>)
    requires j <= k < |es| && vs != []
    ensures Acmp(es[k], vs[0]) <= 0
            ==> es[j..k] + Merged(es[k..], vs, Acmp) == es[j..k + 1] + Merged(es[k + 1..], vs, Acmp)
  {
    hide Acmp;
    assert es[k..][0] == es[k] && es[k..][1..] == es[k + 1..];
    assert es[j..k + 1] == es[j..k] + [es[k]];
  }

  /** `sdb_array_add_sorted`, with the new elements already sorted. */
  method AddSorted(s: Str, vals: seq<Str>) returns (r: Str)
    requires vals != [] && forall i :: 0 <= i < |vals| ==> RS !in vals[i]
    ensures r == Join(Merged(Elements(s), vals, Acmp))
  {
    hide At, Chunk, Merged, Split, Acmp, Commas, Join, Elements;
    var nstr, lp := [], 0;
    ghost var k, done := 0, [];
    ghost var es := Elements(s);
    AtStart(s);
    CommasNone();
    for i := 0 to |vals|
      invariant lp <= |s| && k <= |es| && At(s, k, lp) && nstr == Commas(done)
      invariant done + Merged(es[k..], vals[i..], Acmp) == Merged(es, vals, Acmp)
      invariant i > 0 ==> done != []
    {
      var p;
      ghost var q;
      p, q := SkipUpTo(s, vals[i], lp, k, vals[i..]);
      ChunkLen(s, k, lp, q, p);
      nstr := nstr + s[lp..p];
      if p == |s| && lp != |s| {
        nstr := nstr + [RS];
      }
      ChunkText(s, k, lp, q, p, done, nstr);
      nstr := nstr + vals[i] + [RS];
      Next(es, vals, k, q, i, done);
      done := done + es[k..q] + [vals[i]];
      lp, k := p, q;
    }
    AllTaken(es, k, vals);
    if lp < |s| {
      r := nstr + s[lp..];
      Remainder(s, k, lp, done);
    } else {
      AtEnd(s, k, lp);
      CommasJoin(done);
      assert done + es[k..] == done;
      r := nstr[..|nstr| - 1];
    }
  }

  lemma AtStart(s: Str)
    ensures At(s, 0, 0)
    ensures forall vs :: [] + Merged(Elements(s)[0..], vs, Acmp) == Merged(Elements(s), vs, Acmp)
  {
    hide Split, Merged;
    BeginsFirst(s);
    assert Elements(s)[0..] == Elements(s);
  }

  lemma CommasNone()
    ensures Commas([]) == []
  {
  }

  lemma ChunkText(s: Str, k: nat, lp: nat, q: nat, p: nat, done: seq<Str>, nstr: Str)
    requires Chunk(s, k, lp, q, p)
    requires nstr == if p == |s| && lp != |s| then Commas(done) + s[lp..p] + [RS] else Commas(done) + s[lp..p]
    ensures nstr == Commas(done + Elements(s)[k..q])
    ensures forall v :: Commas(done + Elements(s)[k..q] + [v]) == nstr + v + [RS]
  {
    hide Split, Elements;
    var part := Elements(s)[k..q];
    CommasConcat(done, part);
    Assoc(Commas(done), s[lp..p], [RS]);
    forall v
      ensures Commas(done + part + [v]) == nstr + v + [RS]
    {
      var all := done + part + [v];
      assert all[..|all| - 1] == done + part && all[|all| - 1] == v;
    }
  }

  lemma Next(es: seq<Str>, vals: seq<Str>, k: nat, q: nat, i: nat, done: seq<Str>)
    requires k <= q <= |es| && i < |vals|
    requires es[k..q] + Merged(es[q..], vals[i..], Acmp) == Merged(es[k..], vals[i..], Acmp)
    requires q < |es| ==> Acmp(es[q], vals[i]) > 0
    requires done + Merged(es[k..], vals[i..], Acmp) == Merged(es, vals, Acmp)
    ensures done + es[k..q] + [vals[i]] + Merged(es[q..], vals[i + 1..], Acmp) == Merged(es, vals, Acmp)
  {
    hide Merged, Acmp;
    MergedStep(done + es[k..q], es[q..], vals[i..], Acmp);
    Assoc(done, es[k..q], Merged(es[q..], vals[i..], Acmp));
    assert vals[i..][1..] == vals[i + 1..];
  }

  lemma AllTaken(es: seq<Str>, k: nat, vals: seq<Str>)
    requires k <= |es|
    ensures Merged(es[k..], vals[|vals|..], Acmp) == es[k..]
  {
  }

  lemma Remainder(s: Str, k: nat, lp: nat, done: seq<Str>)
    requires At(s, k, lp) && lp < |s|
    ensures k <= |Elements(s)| && Commas(done) + s[lp..] == Join(done + Elements(s)[k..])
  {
    hide Split, Commas, Join;
    JoinSplit(s[lp..]);
    CommasThenJoin(done, Elements(s)[k..]);
  }

  lemma {:induction false} CommasThenJoin(a: seq<Str>, b: seq<Str>)
    requires b != []
    ensures Commas(a) + Join(b) == Join(a + b)
  {
    hide Join;
    CommasJoin(b);
    CommasJoin(a + b);
    CommasConcat(a, b);
    Assoc(Commas(a), Join(b), [RS]);
    assert (Commas(a) + Join(b) + [RS])[..|Commas(a) + Join(b)|] == Commas(a) + Join(b);
    assert (Join(a + b) + [RS])[..|Join(a + b)|] == Join(a + b);
  }

  /** Sorting the new elements, as `qsort` does. */
  method SortElements(vs: seq<Str>) returns (r: seq<Str>)
    ensures Sorted(r, Acmp) && multiset(r) == multiset(vs)
  {
    hide Acmp, Merged, Sorted, Ordering;
    AcmpOrders();
    r := [];
    SortedShort([]);
    assert vs[..0] == [];
    for i := 0 to |vs|
      invariant Sorted(r, Acmp) && multiset(r) == multiset(vs[..i])
    {
      SortedShort([vs[i]]);
      MergedSorted(r, [vs[i]], Acmp);
      MergedMultiset(r, [vs[i]], Acmp);
      assert vs[..i + 1] == vs[..i] + [vs[i]];
      r := Merged(r, [vs[i]], Acmp);
    }
    assert vs[..|vs|] == vs;
  }

  lemma SortedShort(es: seq<Str>)
    requires |es| <= 1
    ensures Sorted(es, Acmp)
  {
  }

  /** `sdb_array_add_sorted`: the elements of both, and in order if the array was. */
  method ArrayAddSorted(s: Str, val: Str) returns (ok: bool, r: Str)
    ensures ok <==> val != []
    ensures !ok ==> r == s
    ensures ok ==> multiset(Elements(r)) == multiset(Elements(s)) + multiset(Split(val))
    ensures ok && Sorted(Elements(s), Acmp) ==> Sorted(Elements(r), Acmp)
  {
    hide Acmp, Merged, Sorted, Ordering, Split, Join;
    if val == [] {
      return false, s;
    }
    var vals := SortElements(Split(val));
    AllFree(val, vals);
    r := AddSorted(s, vals);
    MergedMultiset(Elements(s), vals, Acmp);
    AcmpOrders();
    if Sorted(Elements(s), Acmp) {
      MergedSorted(Elements(s), vals, Acmp);
    }
    AddedElements(s, val, vals, r);
    ok := true;
  }

  lemma AllFree(val: Str, vals: seq<Str>)
    requires multiset(vals) == multiset(Split(val))
    ensures vals != [] && forall i :: 0 <= i < |vals| ==> RS !in vals[i]
  {
    hide Split;
    assert Split(val)[0] in multiset(vals);
    forall i | 0 <= i < |vals|
      ensures RS !in vals[i]
    {
      assert vals[i] in multiset(vals);
      var j :| 0 <= j < |Split(val)| && Split(val)[j] == vals[i];
      SplitFree(val, j);
    }
  }

  lemma AddedElements(s: Str, val: Str, vals: seq<Str>, r: Str)
    requires val != [] && multiset(vals) == multiset(Split(val)) && r == Join(Merged(Elements(s), vals, Acmp))
    ensures Elements(r) == Merged(Elements(s), vals, Acmp)
  {
    hide Acmp, Merged, Join, Split;
    var all := Merged(Elements(s), vals, Acmp);
    MergedMultiset(Elements(s), vals, Acmp);
    AllFree(val, vals);
    assert |multiset(all)| == |Elements(s)| + |vals|;
    forall i | 0 <= i < |all|
      ensures RS !in all[i]
    {
      MergedMembers(Elements(s), vals, Acmp, all[i]);
      ElementFree(s, all[i]);
    }
    SplitJoin(all);
    ElementsAre(r);
    if all == [[]] {
      LoneEmpty(s, val, vals);
    }
  }

  lemma ElementFree(s: Str, x: Str)
    requires x in Elements(s) || RS !in x
    ensures RS !in x
  {
    if x in Elements(s) {
      var j :| 0 <= j < |Elements(s)| && Elements(s)[j] == x;
      SplitFree(s, j);
    }
  }

  lemma LoneEmpty(s: Str, val: Str, vals: seq<Str>)
    requires val != [] && multiset(vals) == multiset(Split(val)) && |Elements(s)| + |vals| == 1
    ensures Merged(Elements(s), vals, Acmp) != [[]]
  {
    AllFree(val, vals);
    SplitEmpty(val);
    assert |multiset(vals)| == |vals| && |multiset(Split(val))| == |Split(val)|;
    assert vals[0] in multiset(Split(val));
  }

  // --- separator and order in octets ---

  /** Elements are separated by commas. */
  lemma CommaSeparates(a: Str, b: Str)
    requires 44 !in a && 44 !in b
    ensures Split(a + [44] + b) == [a, b] && Split(a) == [a]
  {
    var s := a + [44] + b;
    IndexUnique(s, 44, |a|);
    assert s[..|a|] == a && s[|a| + 1..] == b;
    IndexNone(b, 44);
    IndexNone(a, 44);
  }

  /** Elements are compared octet by octet, those from 128 on being negative, and a prefix
      comes first. */
  lemma OrderIs(a: Str, b: Str, x: byte, y: byte)
    ensures Acmp([x] + a, [x] + b) == Acmp(a, b)
    ensures x != y ==> (Acmp([x] + a, [y] + b) < 0 <==> (x < y && (y < 128 || x >= 128)) || (x >= 128 && y < 128))
    ensures Acmp([], [x] + a) < 0 && Acmp([x] + a, []) > 0 && Acmp([], []) == 0
  {
    assert ([x] + a)[1..] == a && ([x] + b)[1..] == b && ([y] + b)[1..] == b;
  }
}
