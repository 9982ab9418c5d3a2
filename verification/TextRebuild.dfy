/**
 src/text.c and src/ns.c: the lines of a dump, applied one after the other to an
 empty memory database, rebuild the tree they were written from.
 */
module TextRebuild {
  import opened Bytes
  import opened TextFormat

  /** The database being filled and the namespace that entries go to, as the indices
      of its ancestors among their siblings. */
  datatype Loader = Loader(root: Tree, cur: seq<nat>)

  /** `sdb_ns` looks a namespace up by the hash of its name. */
  function FindKid(kids: seq<Kid>, hash: Str -> u32, h: u32): (i: nat)
    ensures i <= |kids|
    ensures i < |kids| ==> hash(kids[i].name) == h
    ensures forall j :: 0 <= j < i ==> hash(kids[j].name) != h
  {
    if kids == [] then 0
    else if FindKid(kids[..|kids| - 1], hash, h) < |kids| - 1 then FindKid(kids[..|kids| - 1], hash, h)
    else if hash(kids[|kids| - 1].name) == h then |kids| - 1
    else |kids|
  }

  /** `sdb_ns` with `create`: a missing namespace goes to the end of the list. */
  function WithKid(kids: seq<Kid>, hash: Str -> u32, name: Str): (r: seq<Kid>)
    ensures FindKid(kids, hash, hash(name)) < |r|
  {
    if FindKid(kids, hash, hash(name)) < |kids| then kids else kids + [Kid(name, EMPTY)]
  }

  /** The namespaces along a path are opened, and created where missing. */
  function Open(t: Tree, names: seq<Str>, hash: Str -> u32): Loader
    decreases names
  {
    if names == [] then Loader(t, []) else
    var i, kids := FindKid(t.kids, hash, hash(names[0])), WithKid(t.kids, hash, names[0]);
    var sub := Open(kids[i].node, names[1..], hash);
    Loader(Tree(t.entries, kids[i := Kid(kids[i].name, sub.root)]), [i] + sub.cur)
  }

  /** `sdb_set` in a memory database. */
  function Put(es: seq<Pair>, k: Str, v: Str): seq<Pair> {
    if |k| >= KSZ || |v| >= VSZ then es
    else if es == [] then [Pair(k, v)]
    else if es[0].key == k then [Pair(k, v)] + es[1..]
    else [es[0]] + Put(es[1..], k, v)
  }

  function SetAt(t: Tree, at: seq<nat>, k: Str, v: Str): Tree
    decreases at
  {
    if at == [] then Tree(Put(t.entries, k, v), t.kids)
    else if at[0] < |t.kids| then
      Tree(t.entries, t.kids[at[0] := Kid(t.kids[at[0]].name, SetAt(t.kids[at[0]].node, at[1..], k, v))])
    else t
  }

  /** `load_process_line` on the database. */
  function Apply(l: Loader, e: Event, hash: Str -> u32): Loader {
    match e
    case Path(names) => Open(l.root, names, hash)
    case Entry(k, v) => Loader(SetAt(l.root, l.cur, k, v), l.cur)
  }

  function ApplyAll(l: Loader, es: seq<Event>, hash: Str -> u32): Loader {
    if es == [] then l else Apply(ApplyAll(l, es[..|es| - 1], hash), es[|es| - 1], hash)
  }

  lemma {:induction false} ApplyConcat(l: Loader, a: seq<Event>, b: seq<Event>, hash: Str -> u32)
    ensures ApplyAll(l, a + b, hash) == ApplyAll(ApplyAll(l, a, hash), b, hash)
  {
    if b == [] {
      assert a + b == a;
    } else {
      var c := b[..|b| - 1];
      assert (a + b)[..|a + b| - 1] == a + c && (a + b)[|a + b| - 1] == b[|b| - 1];
      ApplyConcat(l, a, c, hash);
    }
  }

  lemma ApplyOne(l: Loader, e: Event, hash: Str -> u32)
    ensures ApplyAll(l, [e], hash) == Apply(l, e, hash)
  {
    assert [e][..0] == [];
    assert ApplyAll(l, [], hash) == l;
  }

  // --- entries ---

  lemma {:induction false} PutNew(es: seq<Pair>, k: Str, v: Str)
    requires |k| < KSZ && |v| < VSZ && forall i :: 0 <= i < |es| ==> es[i].key != k
    ensures Put(es, k, v) == es + [Pair(k, v)]
  {
    if es != [] {
      PutNew(es[1..], k, v);
      assert [es[0]] + (es[1..] + [Pair(k, v)]) == es + [Pair(k, v)];
    }
  }

  /** A later entry of a key replaces the earlier one where it stands. */
  lemma {:induction false} PutReplaces(es: seq<Pair>, k: Str, v: Str, i: nat)
    requires |k| < KSZ && |v| < VSZ && i < |es| && es[i].key == k && forall j :: 0 <= j < i ==> es[j].key != k
    ensures Put(es, k, v) == es[i := Pair(k, v)]
  {
    if i > 0 {
      PutReplaces(es[1..], k, v, i - 1);
      assert es[i := Pair(k, v)] == [es[0]] + es[1..][i - 1 := Pair(k, v)];
    }
  }

  /** Of several lines for one key the last one counts, and the place of the first. */
  lemma LastLineWins(l: Loader, k: Str, v: Str, w: Str, i: nat, hash: Str -> u32)
    requires l.cur == [] && |k| < KSZ && |v| < VSZ && |w| < VSZ
    requires i <= |l.root.entries| && (i < |l.root.entries| ==> l.root.entries[i].key == k)
    requires forall j :: 0 <= j < i ==> l.root.entries[j].key != k
    ensures var es := l.root.entries;
            var now := if i < |es| then es[i := Pair(k, w)] else es + [Pair(k, w)];
            ApplyAll(l, [Entry(k, v), Entry(k, w)], hash) == Loader(Tree(now, l.root.kids), [])
  {
    var es := l.root.entries;
    if i < |es| {
      PutReplaces(es, k, v, i);
      PutReplaces(es[i := Pair(k, v)], k, w, i);
    } else {
      PutNew(es, k, v);
      PutReplaces(es + [Pair(k, v)], k, w, i);
      assert (es + [Pair(k, v)])[i := Pair(k, w)] == es + [Pair(k, w)];
    }
    ApplyConcat(l, [Entry(k, v)], [Entry(k, w)], hash);
    ApplyOne(l, Entry(k, v), hash);
    assert [Entry(k, v)] + [Entry(k, w)] == [Entry(k, v), Entry(k, w)];
    ApplyOne(Apply(l, Entry(k, v), hash), Entry(k, w), hash);
  }

  lemma {:induction false} EntriesApply(es: seq<Pair>, kids: seq<Kid>, hash: Str -> u32)
    requires forall i :: 0 <= i < |es| ==> PairOk(es[i])
    requires forall i, j :: 0 <= i < j < |es| ==> es[i].key != es[j].key
    ensures ApplyAll(Loader(Tree([], kids), []), EntryEvents(es), hash) == Loader(Tree(es, kids), [])
  {
    if es != [] {
      var n := |es| - 1;
      var e := Entry(es[n].key, es[n].val);
      EntriesApply(es[..n], kids, hash);
      PutNew(es[..n], es[n].key, es[n].val);
      assert es[..n] + [Pair(es[n].key, es[n].val)] == es;
      ApplyConcat(Loader(Tree([], kids), []), EntryEvents(es[..n]), [e], hash);
      ApplyOne(Loader(Tree(es[..n], kids), []), e, hash);
    }
  }

  // --- one sub-namespace ---

  function UnderOne(n: Str, e: Event): Event {
    match e
    case Path(p) => Path([n] + p)
    case Entry(_, _) => e
  }

  /** The same events, one namespace further down. */
  function Under(n: Str, es: seq<Event>): seq<Event> {
    if es == [] then [] else Under(n, es[..|es| - 1]) + [UnderOne(n, es[|es| - 1])]
  }

  lemma {:induction false} UnderConcat(n: Str, a: seq<Event>, b: seq<Event>)
    ensures Under(n, a + b) == Under(n, a) + Under(n, b)
  {
    if b == [] {
      assert a + b == a;
    } else {
      var c := b[..|b| - 1];
      assert (a + b)[..|a + b| - 1] == a + c && (a + b)[|a + b| - 1] == b[|b| - 1];
      UnderConcat(n, a, c);
      Assoc(Under(n, a), Under(n, c), [UnderOne(n, b[|b| - 1])]);
    }
  }

  lemma {:induction false} UnderEntries(n: Str, es: seq<Pair>)
    ensures Under(n, EntryEvents(es)) == EntryEvents(es)
  {
    if es != [] {
      UnderEntries(n, es[..|es| - 1]);
    }
  }

  lemma {:induction false} UnderTree(n: Str, t: Tree, path: seq<Str>)
    ensures TreeEvents(t, [n] + path) == Under(n, TreeEvents(t, path))
    decreases t, 1
  {
    hide EntryEvents;
    UnderEntries(n, t.entries);
    UnderKids(n, t, |t.kids|, path);
    var head := [Path(path)];
    assert head[..0] == [];
    assert Under(n, []) == [];
    assert Under(n, head) == [Path([n] + path)];
    UnderConcat(n, head + EntryEvents(t.entries), KidsEvents(t, |t.kids|, path));
    UnderConcat(n, head, EntryEvents(t.entries));
  }

  lemma {:induction false} UnderKids(n: Str, t: Tree, k: nat, path: seq<Str>)
    requires k <= |t.kids|
    ensures KidsEvents(t, k, [n] + path) == Under(n, KidsEvents(t, k, path))
    decreases t, 0, k
  {
    if k > 0 {
      var kid := t.kids[k - 1];
      UnderKids(n, t, k - 1, path);
      UnderTree(n, kid.node, path + [kid.name]);
      assert [n] + (path + [kid.name]) == [n] + path + [kid.name];
      UnderConcat(n, KidsEvents(t, k - 1, path), TreeEvents(kid.node, path + [kid.name]));
    }
  }

  /** The parent around a child state. */
  function Within(t: Tree, n: Str, hash: Str -> u32, child: Loader): Loader {
    var i, kids := FindKid(t.kids, hash, hash(n)), WithKid(t.kids, hash, n);
    Loader(Tree(t.entries, kids[i := Kid(kids[i].name, child.root)]), [i] + child.cur)
  }

  function KidNode(t: Tree, n: Str, hash: Str -> u32): Tree {
    WithKid(t.kids, hash, n)[FindKid(t.kids, hash, hash(n))].node
  }

  lemma FindAgain(t: Tree, n: Str, hash: Str -> u32, child: Loader)
    ensures var u := Within(t, n, hash, child).root;
            && FindKid(u.kids, hash, hash(n)) == FindKid(t.kids, hash, hash(n))
            && FindKid(u.kids, hash, hash(n)) < |u.kids|
            && WithKid(u.kids, hash, n) == u.kids && KidNode(u, n, hash) == child.root
  {
    var i := FindKid(t.kids, hash, hash(n));
    var u := Within(t, n, hash, child).root;
    assert hash(u.kids[i].name) == hash(n);
    assert forall j :: 0 <= j < i ==> hash(u.kids[j].name) != hash(n);
  }

  /** One event in the child is the same event, one level down, in the parent. */
  lemma WithinStep(t: Tree, n: Str, hash: Str -> u32, child: Loader, e: Event)
    ensures Apply(Within(t, n, hash, child), UnderOne(n, e), hash) == Within(t, n, hash, Apply(child, e, hash))
  {
    hide FindKid, WithKid;
    FindAgain(t, n, hash, child);
    var w := Within(t, n, hash, child);
    match e
    case Path(p) =>
      assert ([n] + p)[1..] == p;
    case Entry(k, v) =>
      assert w.cur[1..] == child.cur;
  }

  /** Events that start by opening a child act on that child alone. */
  lemma {:induction false} Focus(t: Tree, c: seq<nat>, n: Str, es: seq<Event>, d: seq<nat>, hash: Str -> u32)
    requires es != [] && es[0].Path?
    ensures ApplyAll(Loader(t, c), Under(n, es), hash)
            == Within(t, n, hash, ApplyAll(Loader(KidNode(t, n, hash), d), es, hash))
  {
    hide Within, KidNode, FindKid, WithKid, Apply;
    var k := |es| - 1;
    var l, m := Loader(t, c), Loader(KidNode(t, n, hash), d);
    var e := UnderOne(n, es[k]);
    ApplyConcat(l, Under(n, es[..k]), [e], hash);
    if k == 0 {
      OpenFirst(t, c, n, es[0].names, d, hash);
      assert es[..0] == [];
      ApplyNone(l, hash);
      ApplyNone(m, hash);
      assert Under(n, es[..k]) == [];
      assert [] + [e] == [e];
      ApplyOne(l, e, hash);
    } else {
      Focus(t, c, n, es[..k], d, hash);
      var child := ApplyAll(m, es[..k], hash);
      WithinStep(t, n, hash, child, es[k]);
      ApplyOne(Within(t, n, hash, child), e, hash);
    }
  }

  lemma ApplyNone(l: Loader, hash: Str -> u32)
    ensures ApplyAll(l, [], hash) == l
  {
  }

  lemma OpenFirst(t: Tree, c: seq<nat>, n: Str, p: seq<Str>, d: seq<nat>, hash: Str -> u32)
    ensures Apply(Loader(t, c), Path([n] + p), hash)
            == Within(t, n, hash, Apply(Loader(KidNode(t, n, hash), d), Path(p), hash))
  {
    hide FindKid, WithKid;
    assert ([n] + p)[1..] == p;
  }

  // --- the whole tree ---

  lemma {:induction false} Rebuild(t: Tree, hash: Str -> u32)
    requires TreeOk(t, hash)
    ensures ApplyAll(Loader(EMPTY, []), TreeEvents(t, []), hash).root == t
    decreases t, 1
  {
    RebuildKids(t, |t.kids|, hash);
    assert t.kids[..|t.kids|] == t.kids;
  }

  lemma {:induction false} RebuildKids(t: Tree, n: nat, hash: Str -> u32)
    requires TreeOk(t, hash) && n <= |t.kids|
    ensures ApplyAll(Loader(EMPTY, []), [Path([])] + EntryEvents(t.entries) + KidsEvents(t, n, []), hash).root
            == Tree(t.entries, t.kids[..n])
    decreases t, 0, n
  {
    hide ApplyAll, EntryEvents, TreeEvents, FindKid;
    var l := Loader(EMPTY, []);
    var head := [Path([])] + EntryEvents(t.entries);
    if n == 0 {
      ApplyConcat(l, [Path([])], EntryEvents(t.entries), hash);
      ApplyOne(l, Path([]), hash);
      EntriesApply(t.entries, [], hash);
      assert head + KidsEvents(t, 0, []) == head;
    } else {
      var kid := t.kids[n - 1];
      RebuildKids(t, n - 1, hash);
      var before := head + KidsEvents(t, n - 1, []);
      Assoc(head, KidsEvents(t, n - 1, []), TreeEvents(kid.node, [kid.name]));
      assert [] + [kid.name] == [kid.name];
      ApplyConcat(l, before, TreeEvents(kid.node, [kid.name]), hash);
      Rebuild(kid.node, hash);
      AddKid(t, n - 1, ApplyAll(l, before, hash).cur, hash);
    }
  }

  lemma AddKid(t: Tree, n: nat, cur: seq<nat>, hash: Str -> u32)
    requires TreeOk(t, hash) && n < |t.kids|
    requires ApplyAll(Loader(EMPTY, []), TreeEvents(t.kids[n].node, []), hash).root == t.kids[n].node
    ensures ApplyAll(Loader(Tree(t.entries, t.kids[..n]), cur), TreeEvents(t.kids[n].node, [t.kids[n].name]),
                     hash).root == Tree(t.entries, t.kids[..n + 1])
  {
    hide ApplyAll, TreeEvents, FindKid, WithKid, KidNode, Within, TreeOk, Under;
    var kid := t.kids[n];
    assert [kid.name] + [] == [kid.name];
    UnderTree(kid.name, kid.node, []);
    KidAdded(t, n, hash, ApplyAll(Loader(EMPTY, []), TreeEvents(kid.node, []), hash));
    TreeStarts(kid.node, []);
    Focus(Tree(t.entries, t.kids[..n]), cur, kid.name, TreeEvents(kid.node, []), [], hash);
    assert t.kids[..n + 1] == t.kids[..n] + [Kid(kid.name, kid.node)];
  }

  lemma TreeStarts(t: Tree, path: seq<Str>)
    ensures TreeEvents(t, path) != [] && TreeEvents(t, path)[0].Path?
  {
  }

  lemma KidAdded(t: Tree, n: nat, hash: Str -> u32, child: Loader)
    requires TreeOk(t, hash) && n < |t.kids|
    ensures var u, name := Tree(t.entries, t.kids[..n]), t.kids[n].name;
            && KidNode(u, name, hash) == EMPTY
            && Within(u, name, hash, child).root == Tree(t.entries, t.kids[..n] + [Kid(name, child.root)])
  {
    assert forall j :: 0 <= j < n ==> hash(t.kids[..n][j].name) != hash(t.kids[n].name);
    var i := FindKid(t.kids[..n], hash, hash(t.kids[n].name));
    assert i == n;
    hide TreeOk, FindKid;
    var name := t.kids[n].name;
    assert (t.kids[..n] + [Kid(name, EMPTY)])[n := Kid(name, child.root)] == t.kids[..n] + [Kid(name, child.root)];
  }

  /** Loading a saved dump into an empty memory database gives the tree back. */
  lemma SaveThenLoad(t: Tree, hash: Str -> u32)
    requires TreeOk(t, hash)
    ensures ApplyAll(Loader(EMPTY, []), Decode(TreeText(t, [])), hash).root == t
  {
    hide Decode, TreeText, ApplyAll, TreeEvents, TreeOk;
    DumpDecodes(t, hash);
    Rebuild(t, hash);
  }
}
