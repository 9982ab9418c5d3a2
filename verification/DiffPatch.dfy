/**
 src/diff.c: the reports as a patch. Applied in the order they are made, with the
 namespaces and entries of an ordinary database, they turn the first database into one
 with the contents of the second.
 */
module DiffPatch {
  import opened Bytes
  import opened Options
  import opened TextFormat
  import opened TextRebuild
  import opened Diff

  // --- applying one report ---

  /** The first sub-namespace of this name, or the number of them. */
  function Named(kids: seq<Kid>, name: Str): (i: nat)
    ensures i <= |kids| && (i < |kids| ==> kids[i].name == name)
    ensures forall j :: 0 <= j < i ==> kids[j].name != name
  {
    if kids == [] || kids[0].name == name then 0 else 1 + Named(kids[1..], name)
  }

  /** `sdb_unset` in a memory database. */
  function Unset(es: seq<Pair>, k: Str): seq<Pair> {
    if es == [] then [] else
    Unset(es[..|es| - 1], k) + if es[|es| - 1].key == k then [] else [es[|es| - 1]]
  }

  /** What the change does in the namespace it is about: set or unset an entry, create
      or remove a sub-namespace. */
  function Here(t: Tree, add: bool, key: Str, val: Option<Str>): Tree {
    match val
    case Some(v) => t.(entries := if add then Put(t.entries, key, v) else Unset(t.entries, key))
    case None =>
      var i := Named(t.kids, key);
      if add then (if i < |t.kids| then t else t.(kids := t.kids + [Kid(key, EMPTY)]))
      else (if i < |t.kids| then t.(kids := t.kids[..i] + t.kids[i + 1..]) else t)
  }

  /** The change is made in the namespace at its path; without that namespace nothing
      happens. */
  function Patch(t: Tree, c: Change): Tree
    decreases c.fact.path
  {
    if c.fact.path == [] then Here(t, c.add, c.fact.key, c.fact.val) else
    var i := Named(t.kids, c.fact.path[0]);
    if i == |t.kids| then t else
    t.(kids := t.kids[i := Kid(t.kids[i].name, Patch(t.kids[i].node, Strip(c)))])
  }

  function PatchAll(t: Tree, cs: seq<Change>): Tree {
    if cs == [] then t else Patch(PatchAll(t, cs[..|cs| - 1]), cs[|cs| - 1])
  }

  lemma {:induction false} PatchConcat(t: Tree, a: seq<Change>, b: seq<Change>)
    ensures PatchAll(t, a + b) == PatchAll(PatchAll(t, a), b)
  {
    if b == [] {
      assert a + b == a;
    } else {
      var c := b[..|b| - 1];
      assert (a + b)[..|a + b| - 1] == a + c && (a + b)[|a + b| - 1] == b[|b| - 1];
      PatchConcat(t, a, c);
    }
  }

  lemma PatchOne(t: Tree, c: Change)
    ensures PatchAll(t, [c]) == Patch(t, c)
  {
    assert [c][..0] == [];
    assert PatchAll(t, []) == t;
  }

  // --- reports of a sub-namespace ---

  /** Reports below a namespace change that namespace alone. */
  lemma {:induction false} PatchBelow(t: Tree, n: Str, cs: seq<Change>)
    ensures var i := Named(t.kids, n);
            PatchAll(t, Below(n, cs)) == if i == |t.kids| then t
                                         else t.(kids := t.kids[i := Kid(n, PatchAll(t.kids[i].node, cs))])
  {
    hide Named, Patch;
    var i := Named(t.kids, n);
    if cs == [] {
      PatchNone(t);
      if i < |t.kids| {
        PatchNone(t.kids[i].node);
        assert t.kids[i := Kid(n, t.kids[i].node)] == t.kids;
      }
    } else {
      var k := |cs| - 1;
      PatchBelow(t, n, cs[..k]);
      PatchConcat(t, Below(n, cs[..k]), [Lower(n, cs[k])]);
      var u := PatchAll(t, Below(n, cs[..k]));
      PatchOne(u, Lower(n, cs[k]));
      PatchLower(t, n, if i == |t.kids| then t.kids else t.kids[i := Kid(n, PatchAll(t.kids[i].node, cs[..k]))], cs[k]);
    }
  }

  lemma PatchNone(t: Tree)
    ensures PatchAll(t, []) == t
  {
  }

  lemma PatchLower(t: Tree, n: Str, kids: seq<Kid>, c: Change)
    requires var i := Named(t.kids, n);
             if i == |t.kids| then kids == t.kids
             else |kids| == |t.kids| && kids == t.kids[i := kids[i]] && kids[i].name == n
    ensures var i := Named(t.kids, n);
            Patch(t.(kids := kids), Lower(n, c)) == if i == |t.kids| then t
                                                     else t.(kids := kids[i := Kid(n, Patch(kids[i].node, c))])
  {
    var i := Named(t.kids, n);
    NamedIs(kids, n, i);
    var d := Lower(n, c);
    assert d.fact.path[1..] == c.fact.path;
    assert Strip(d) == c;
  }

  lemma {:induction false} NamedIs(kids: seq<Kid>, n: Str, i: nat)
    requires i <= |kids| && (i < |kids| ==> kids[i].name == n) && forall j :: 0 <= j < i ==> kids[j].name != n
    ensures Named(kids, n) == i
  {
    if i > 0 {
      NamedIs(kids[1..], n, i - 1);
    }
  }

  // --- entries ---

  ghost predicate Unique(es: seq<Pair>) {
    forall i, j :: 0 <= i < j < |es| ==> es[i].key != es[j].key
  }

  lemma {:induction false} UnsetIs(es: seq<Pair>, k: Str, p: Pair)
    ensures p in Unset(es, k) <==> p in es && p.key != k
  {
    if es != [] {
      UnsetIs(es[..|es| - 1], k, p);
      assert es == es[..|es| - 1] + [es[|es| - 1]];
    }
  }

  lemma {:induction false} UnsetUnique(es: seq<Pair>, k: Str)
    requires Unique(es)
    ensures Unique(Unset(es, k))
  {
    if es != [] {
      var n := |es| - 1;
      UnsetUnique(es[..n], k);
      forall p | p in Unset(es[..n], k)
        ensures p.key != es[n].key
      {
        UnsetIs(es[..n], k, p);
      }
    }
  }

  lemma {:induction false} PutIs(es: seq<Pair>, k: Str, v: Str, p: Pair)
    requires Unique(es) && |k| < KSZ && |v| < VSZ
    ensures p in Put(es, k, v) <==> p == Pair(k, v) || (p in es && p.key != k)
  {
    if es != [] {
      var rest := es[1..];
      assert es == [es[0]] + rest;
      assert forall i :: 0 <= i < |rest| ==> rest[i] == es[i + 1];
      if es[0].key != k {
        PutIs(rest, k, v, p);
      }
    }
  }

  lemma {:induction false} PutUnique(es: seq<Pair>, k: Str, v: Str)
    requires Unique(es) && |k| < KSZ && |v| < VSZ
    ensures Unique(Put(es, k, v))
  {
    if es != [] && es[0].key != k {
      var rest := es[1..];
      PutUnique(rest, k, v);
      forall p | p in Put(rest, k, v)
        ensures p.key != es[0].key
      {
        PutIs(rest, k, v, p);
      }
    }
  }

  /** Entry reports change the entries alone. */
  function PatchEntries(es: seq<Pair>, cs: seq<Change>): seq<Pair> {
    PatchAll(Tree(es, []), cs).entries
  }

  ghost predicate OnEntries(cs: seq<Change>) {
    forall i :: 0 <= i < |cs| ==> cs[i].fact.path == [] && cs[i].fact.val.Some?
  }

  lemma {:induction false} EntriesAlone(t: Tree, cs: seq<Change>)
    requires OnEntries(cs)
    ensures PatchAll(t, cs) == t.(entries := PatchEntries(t.entries, cs))
  {
    if cs != [] {
      EntriesAlone(t, cs[..|cs| - 1]);
    }
  }

  ghost predicate Keyed(es: seq<Pair>, n: nat, k: Str) {
    exists i :: 0 <= i < n && i < |es| && es[i].key == k
  }

  /** The pairs after the first `n` entries of the first database have been compared. */
  ghost predicate Halfway(es: seq<Pair>, other: seq<Pair>, n: nat, now: seq<Pair>) {
    && Unique(now)
    && forall p :: p in now <==> if Keyed(es, n, p.key) then p in other else p in es
  }

  lemma DiffEntryOnEntries(e: Pair, other: seq<Pair>, add: bool)
    ensures OnEntries(DiffEntry(e, other, add))
  {
  }

  /** One compared entry of the first database. */
  lemma GoneStep(es: seq<Pair>, other: seq<Pair>, n: nat, now: seq<Pair>)
    requires EntriesOk(es) && EntriesOk(other) && n < |es| && Halfway(es, other, n, now)
    ensures Halfway(es, other, n + 1, PatchEntries(now, DiffEntry(es[n], other, false)))
  {
    hide PatchAll, Lookup, Halfway;
    var e := es[n];
    var r := Lookup(other, e.key);
    var after := PatchEntries(now, DiffEntry(e, other, false));
    LookupIs(other, e.key, e.val);
    PatchedEntry(now, e, r);
    HalfwayUnique(es, other, n, now);
    if r.None? {
      UnsetUnique(now, e.key);
      GoneHalf(es, other, n, now, after, r);
    } else if r.value != e.val {
      LookupSized(other, e.key);
      UnsetUnique(now, e.key);
      PutUnique(Unset(now, e.key), e.key, r.value);
      GoneHalf(es, other, n, now, after, r);
    } else {
      GoneHalf(es, other, n, now, after, r);
    }
  }

  lemma HalfwayUnique(es: seq<Pair>, other: seq<Pair>, n: nat, now: seq<Pair>)
    requires Halfway(es, other, n, now)
    ensures Unique(now)
  {
  }

  lemma LookupSized(es: seq<Pair>, k: Str)
    requires EntriesOk(es) && Lookup(es, k).Some?
    ensures |k| < KSZ && |Lookup(es, k).value| < VSZ
  {
    var i :| 0 <= i < |es| && es[i] == Pair(k, Lookup(es, k).value);
    assert PairOk(es[i]);
  }

  /** What the reports about one entry do. */
  lemma PatchedEntry(now: seq<Pair>, e: Pair, r: Option<Str>)
    requires r.Some? ==> r.value != []
    ensures PatchEntries(now, []) == now
    ensures PatchEntries(now, [Change(false, Fact([], e.key, Some(e.val)))]) == Unset(now, e.key)
    ensures r.Some? ==>
              var cs := [Change(false, Fact([], e.key, Some(e.val))), Change(true, Fact([], e.key, r))];
              PatchEntries(now, cs) == Put(Unset(now, e.key), e.key, r.value)
    ensures PatchEntries(now, [Change(true, Fact([], e.key, Some(e.val)))]) == Put(now, e.key, e.val)
  {
    hide Put, Unset;
    var t := Tree(now, []);
    var c := Change(false, Fact([], e.key, Some(e.val)));
    PatchOne(t, c);
    PatchOne(t, Change(true, Fact([], e.key, Some(e.val))));
    if r.Some? {
      var d := Change(true, Fact([], e.key, r));
      PatchConcat(t, [c], [d]);
      PatchOne(Patch(t, c), d);
      assert [c] + [d] == [c, d];
    }
  }

  lemma GoneHalf(es: seq<Pair>, other: seq<Pair>, n: nat, now: seq<Pair>, after: seq<Pair>, r: Option<Str>)
    requires EntriesOk(es) && EntriesOk(other) && n < |es| && Halfway(es, other, n, now) && Unique(after)
    requires r == Lookup(other, es[n].key)
    requires after == if r.None? then Unset(now, es[n].key)
                      else if r.value != es[n].val then Put(Unset(now, es[n].key), es[n].key, r.value)
                      else now
    ensures Halfway(es, other, n + 1, after)
  {
    hide EntriesOk, Lookup;
    forall p: Pair
      ensures p in after <==> if Keyed(es, n + 1, p.key) then p in other else p in es
    {
      GonePair(es, other, n, now, after, r, p);
    }
  }

  lemma GonePair(es: seq<Pair>, other: seq<Pair>, n: nat, now: seq<Pair>, after: seq<Pair>, r: Option<Str>, p: Pair)
    requires EntriesOk(es) && EntriesOk(other) && n < |es| && Halfway(es, other, n, now)
    requires r == Lookup(other, es[n].key)
    requires after == if r.None? then Unset(now, es[n].key)
                      else if r.value != es[n].val then Put(Unset(now, es[n].key), es[n].key, r.value)
                      else now
    ensures p in after <==> if Keyed(es, n + 1, p.key) then p in other else p in es
  {
    hide Lookup, Put, Unset, EntriesOk;
    var e := es[n];
    KeyedNext(es, n, p.key);
    LookupIs(other, p.key, p.val);
    LookupIs(es, p.key, p.val);
    LookupIs(es, e.key, e.val);
    UnsetIs(now, e.key, p);
    if r.Some? {
      LookupSized(other, e.key);
      UnsetUnique(now, e.key);
      PutIs(Unset(now, e.key), e.key, r.value, p);
    }
    NotYet(es, n);
  }

  lemma KeyedNext(es: seq<Pair>, n: nat, k: Str)
    requires n < |es|
    ensures Keyed(es, n + 1, k) <==> Keyed(es, n, k) || es[n].key == k
  {
  }

  lemma NotYet(es: seq<Pair>, n: nat)
    requires EntriesOk(es) && n < |es|
    ensures !Keyed(es, n, es[n].key)
  {
  }

  lemma {:induction false} DiffEntriesOnEntries(es: seq<Pair>, other: seq<Pair>, add: bool)
    ensures OnEntries(DiffEntries(es, other, add))
  {
    hide DiffEntry;
    if es != [] {
      DiffEntriesOnEntries(es[..|es| - 1], other, add);
      DiffEntryOnEntries(es[|es| - 1], other, add);
    }
  }

  lemma EntriesConcat(es: seq<Pair>, a: seq<Change>, b: seq<Change>)
    requires OnEntries(a)
    ensures PatchEntries(es, a + b) == PatchEntries(PatchEntries(es, a), b)
  {
    PatchConcat(Tree(es, []), a, b);
    EntriesAlone(Tree(es, []), a);
  }

  lemma {:induction false} GoneAll(es: seq<Pair>, other: seq<Pair>, n: nat)
    requires EntriesOk(es) && EntriesOk(other) && n <= |es|
    ensures Halfway(es, other, n, PatchEntries(es, DiffEntries(es[..n], other, false)))
  {
    hide DiffEntry, PatchEntries, EntriesOk;
    if n == 0 {
      assert es[..0] == [];
      NothingYet(es, other);
    } else {
      GoneAll(es, other, n - 1);
      DiffEntriesNext(es, other, false, n - 1);
      DiffEntriesOnEntries(es[..n - 1], other, false);
      EntriesConcat(es, DiffEntries(es[..n - 1], other, false), DiffEntry(es[n - 1], other, false));
      GoneStep(es, other, n - 1, PatchEntries(es, DiffEntries(es[..n - 1], other, false)));
    }
  }

  lemma NothingYet(es: seq<Pair>, other: seq<Pair>)
    requires EntriesOk(es)
    ensures Halfway(es, other, 0, PatchEntries(es, DiffEntries([], other, false)))
  {
  }

  /** The pairs after the first `m` entries of the second database have been compared. */
  ghost predicate Arrived(es: seq<Pair>, other: seq<Pair>, m: nat, now: seq<Pair>) {
    && Unique(now)
    && forall p :: p in now <==> (Keyed(es, |es|, p.key) || Keyed(other, m, p.key)) && p in other
  }

  lemma ArrivedStart(es: seq<Pair>, other: seq<Pair>, now: seq<Pair>)
    requires Halfway(es, other, |es|, now)
    ensures Arrived(es, other, 0, now)
  {
    forall p: Pair
      ensures p in now <==> (Keyed(es, |es|, p.key) || Keyed(other, 0, p.key)) && p in other
    {
      if p in es {
        var i :| 0 <= i < |es| && es[i] == p;
        assert Keyed(es, |es|, p.key);
      }
    }
  }

  lemma NewStep(es: seq<Pair>, other: seq<Pair>, m: nat, now: seq<Pair>)
    requires EntriesOk(es) && EntriesOk(other) && m < |other| && Arrived(es, other, m, now)
    ensures Arrived(es, other, m + 1, PatchEntries(now, DiffEntry(other[m], es, true)))
  {
    hide PatchAll, Lookup, EntriesOk;
    var e := other[m];
    LookupIs(es, e.key, e.val);
    LookupIs(other, e.key, e.val);
    LookupSized(other, e.key);
    PatchedEntry(now, e, None);
    PutUnique(now, e.key, e.val);
    var after := if Lookup(es, e.key).None? then Put(now, e.key, e.val) else now;
    forall p: Pair
      ensures p in after <==> (Keyed(es, |es|, p.key) || Keyed(other, m + 1, p.key)) && p in other
    {
      KeyedNext(other, m, p.key);
      PutIs(now, e.key, e.val, p);
      LookupIs(other, p.key, p.val);
      LookupKeyed(es, e.key);
    }
  }

  lemma LookupKeyed(es: seq<Pair>, k: Str)
    ensures Lookup(es, k).Some? <==> Keyed(es, |es|, k)
  {
  }

  lemma {:induction false} NewAll(es: seq<Pair>, other: seq<Pair>, m: nat, now: seq<Pair>)
    requires EntriesOk(es) && EntriesOk(other) && m <= |other| && Halfway(es, other, |es|, now)
    ensures Arrived(es, other, m, PatchEntries(now, DiffEntries(other[..m], es, true)))
  {
    hide DiffEntry, PatchEntries, EntriesOk, Arrived, Halfway;
    if m == 0 {
      assert other[..0] == [];
      ArrivedStart(es, other, now);
      NoChange(now, es);
    } else {
      NewAll(es, other, m - 1, now);
      DiffEntriesNext(other, es, true, m - 1);
      DiffEntriesOnEntries(other[..m - 1], es, true);
      EntriesConcat(now, DiffEntries(other[..m - 1], es, true), DiffEntry(other[m - 1], es, true));
      NewStep(es, other, m - 1, PatchEntries(now, DiffEntries(other[..m - 1], es, true)));
    }
  }

  lemma NoChange(now: seq<Pair>, es: seq<Pair>)
    ensures PatchEntries(now, DiffEntries([], es, true)) == now
  {
  }

  /** The entry reports turn the first list of entries into the second, up to order. */
  lemma EntriesPatched(es: seq<Pair>, other: seq<Pair>, p: Pair)
    requires EntriesOk(es) && EntriesOk(other)
    ensures p in PatchEntries(es, DiffEntries(es, other, false) + DiffEntries(other, es, true)) <==> p in other
  {
    hide DiffEntries, PatchEntries, EntriesOk, Halfway;
    assert es[..|es|] == es && other[..|other|] == other;
    GoneAll(es, other, |es|);
    DiffEntriesOnEntries(es, other, false);
    EntriesConcat(es, DiffEntries(es, other, false), DiffEntries(other, es, true));
    NewAll(es, other, |other|, PatchEntries(es, DiffEntries(es, other, false)));
    if p in other {
      var j :| 0 <= j < |other| && other[j] == p;
      assert Keyed(other, |other|, p.key);
    }
  }

  // --- a database built from nothing ---

  lemma {:induction false} ReportEntriesOnEntries(es: seq<Pair>)
    ensures OnEntries(ReportEntries(es, true))
  {
    if es != [] {
      ReportEntriesOnEntries(es[..|es| - 1]);
    }
  }

  lemma {:induction false} EntriesBuilt(es: seq<Pair>, n: nat)
    requires EntriesOk(es) && n <= |es|
    ensures PatchEntries([], ReportEntries(es[..n], true)) == es[..n]
  {
    hide PatchEntries;
    if n == 0 {
      assert es[..0] == [];
      EmptyEntries();
    } else {
      var e := es[n - 1];
      EntriesBuilt(es, n - 1);
      assert es[..n][..n - 1] == es[..n - 1] && es[..n][n - 1] == e;
      ReportEntriesOnEntries(es[..n - 1]);
      EntriesConcat([], ReportEntries(es[..n - 1], true), [Change(true, Fact([], e.key, Some(e.val)))]);
      PatchedEntry(es[..n - 1], e, None);
      assert PairOk(es[n - 1]);
      PutNew(es[..n - 1], e.key, e.val);
      assert es[..n - 1] + [Pair(e.key, e.val)] == es[..n];
    }
  }

  lemma EmptyEntries()
    ensures PatchEntries([], ReportEntries([], true)) == []
  {
  }

  /** Creating a namespace and reporting all its contents rebuilds it. */
  lemma {:induction false} Built(t: Tree, hash: Str -> u32)
    requires TreeOk(t, hash)
    ensures PatchAll(EMPTY, ReportAll(t, true)) == t
    decreases t, 1
  {
    hide PatchAll, PatchEntries, ReportEntries, ReportKids;
    BuiltKids(t, |t.kids|, hash);
    assert t.kids[..|t.kids|] == t.kids && t.entries[..|t.entries|] == t.entries;
    PatchConcat(EMPTY, ReportKids(t, |t.kids|, true), ReportEntries(t.entries, true));
    ReportEntriesOnEntries(t.entries);
    EntriesAlone(Tree([], t.kids), ReportEntries(t.entries, true));
    EntriesOkay(t, hash);
    EntriesBuilt(t.entries, |t.entries|);
  }

  lemma {:induction false} BuiltKids(t: Tree, n: nat, hash: Str -> u32)
    requires TreeOk(t, hash) && n <= |t.kids|
    ensures PatchAll(EMPTY, ReportKids(t, n, true)) == Tree([], t.kids[..n])
    decreases t, 0, n
  {
    hide PatchAll, ReportAll;
    if n == 0 {
      PatchNone(EMPTY);
    } else {
      var kid := t.kids[n - 1];
      BuiltKids(t, n - 1, hash);
      Built(kid.node, hash);
      PatchConcat(EMPTY, ReportKids(t, n - 1, true), ReportKid(t, n - 1, true));
      assert forall j :: 0 <= j < n - 1 ==> t.kids[j].name != kid.name;
      Created(Tree([], t.kids[..n - 1]), kid.name, ReportAll(kid.node, true));
      assert t.kids[..n] == t.kids[..n - 1] + [kid];
    }
  }

  /** A namespace that was not there is created and filled. */
  lemma Created(t: Tree, name: Str, cs: seq<Change>)
    requires forall j :: 0 <= j < |t.kids| ==> t.kids[j].name != name
    ensures PatchAll(t, [Change(true, Fact([], name, None))] + Below(name, cs))
            == t.(kids := t.kids + [Kid(name, PatchAll(EMPTY, cs))])
  {
    hide PatchAll, Below;
    var c := Change(true, Fact([], name, None));
    var u := t.(kids := t.kids + [Kid(name, EMPTY)]);
    NamedIs(t.kids, name, |t.kids|);
    PatchConcat(t, [c], Below(name, cs));
    PatchOne(t, c);
    NamedIs(u.kids, name, |t.kids|);
    PatchBelow(u, name, cs);
    assert u.kids[|t.kids| := Kid(name, PatchAll(EMPTY, cs))] == t.kids + [Kid(name, PatchAll(EMPTY, cs))];
  }

  /** A namespace is removed; the reports below it no longer find it. */
  lemma Dropped(t: Tree, i: nat, name: Str, cs: seq<Change>)
    requires Alone(t.kids, i, name)
    ensures PatchAll(t, [Change(false, Fact([], name, None))] + Below(name, cs))
            == t.(kids := t.kids[..i] + t.kids[i + 1..])
  {
    hide PatchAll, Below;
    var c := Change(false, Fact([], name, None));
    var u := t.(kids := t.kids[..i] + t.kids[i + 1..]);
    NamedIs(t.kids, name, i);
    PatchConcat(t, [c], Below(name, cs));
    PatchOne(t, c);
    NamedIs(u.kids, name, |u.kids|);
    PatchBelow(u, name, cs);
  }

  // --- namespaces ---

  /** What becomes of a namespace of the first database. */
  function Survivor(a: Tree, b: Tree, i: nat, hash: Str -> u32): seq<Kid>
    requires i < |a.kids|
  {
    var j := FindKid(b.kids, hash, hash(a.kids[i].name));
    if j == |b.kids| then []
    else [Kid(a.kids[i].name, PatchAll(a.kids[i].node, Changes(a.kids[i].node, b.kids[j].node, hash)))]
  }

  function Survivors(a: Tree, b: Tree, n: nat, hash: Str -> u32): seq<Kid>
    requires n <= |a.kids|
  {
    if n == 0 then [] else Survivors(a, b, n - 1, hash) + Survivor(a, b, n - 1, hash)
  }

  lemma {:induction false} SurvivorNames(a: Tree, b: Tree, n: nat, hash: Str -> u32, x: Kid)
    requires n <= |a.kids| && x in Survivors(a, b, n, hash)
    ensures exists i :: 0 <= i < n && x in Survivor(a, b, i, hash) && a.kids[i].name == x.name
  {
    hide FindKid, Changes, PatchAll;
    if x in Survivors(a, b, n - 1, hash) {
      SurvivorNames(a, b, n - 1, hash, x);
    }
  }

  lemma {:induction false} SurvivorIn(a: Tree, b: Tree, n: nat, hash: Str -> u32, i: nat, x: Kid)
    requires i < n <= |a.kids| && x in Survivor(a, b, i, hash)
    ensures x in Survivors(a, b, n, hash)
  {
    hide Survivor, FindKid, Changes, PatchAll;
    if i < n - 1 {
      SurvivorIn(a, b, n - 1, hash, i, x);
    }
  }

  lemma {:induction false} KidsPatched(a: Tree, b: Tree, n: nat, hash: Str -> u32)
    requires TreeOk(a, hash) && n <= |a.kids|
    ensures PatchAll(a, DiffKids(a, b, n, hash)) == a.(kids := Survivors(a, b, n, hash) + a.kids[n..])
  {
    hide PatchAll, FindKid, Changes, ReportAll, TreeOk;
    if n == 0 {
      PatchNone(a);
      assert [] + a.kids[0..] == a.kids;
    } else {
      var i := n - 1;
      KidsPatched(a, b, i, hash);
      PatchConcat(a, DiffKids(a, b, i, hash), DiffKid(a, b, i, hash));
      KidPatched(a, b, i, hash);
    }
  }

  ghost predicate Alone(kids: seq<Kid>, i: nat, name: Str) {
    i < |kids| && kids[i].name == name && forall j :: 0 <= j < |kids| && j != i ==> kids[j].name != name
  }

  /** Names among the survivors and the namespaces still to come. */
  lemma OthersNamed(a: Tree, b: Tree, i: nat, hash: Str -> u32)
    requires TreeOk(a, hash) && i < |a.kids|
    ensures Alone(Survivors(a, b, i, hash) + a.kids[i..], |Survivors(a, b, i, hash)|, a.kids[i].name)
  {
    hide FindKid, Changes, PatchAll;
    var left := Survivors(a, b, i, hash);
    forall j | 0 <= j < |left|
      ensures left[j].name != a.kids[i].name
    {
      SurvivorNames(a, b, i, hash, left[j]);
      NamesDiffer(a, hash);
    }
    NamesDiffer(a, hash);
  }

  lemma NamesDiffer(t: Tree, hash: Str -> u32)
    requires TreeOk(t, hash)
    ensures forall i, j :: 0 <= i < j < |t.kids| ==> t.kids[i].name != t.kids[j].name
  {
  }

  lemma KidPatched(a: Tree, b: Tree, i: nat, hash: Str -> u32)
    requires TreeOk(a, hash) && i < |a.kids|
    ensures PatchAll(a.(kids := Survivors(a, b, i, hash) + a.kids[i..]), DiffKid(a, b, i, hash))
            == a.(kids := Survivors(a, b, i + 1, hash) + a.kids[i + 1..])
  {
    hide PatchAll, FindKid, Changes, ReportAll, TreeOk, Survivors, Alone;
    var left, name := Survivors(a, b, i, hash), a.kids[i].name;
    var t := a.(kids := left + a.kids[i..]);
    OthersNamed(a, b, i, hash);
    SurvivorsNext(a, b, i, hash);
    Around(left, a.kids, i);
    var j := FindKid(b.kids, hash, hash(name));
    if j == |b.kids| {
      Dropped(t, |left|, name, ReportAll(a.kids[i].node, false));
    } else {
      AloneNamed(t.kids, |left|, name);
      PatchBelow(t, name, Changes(a.kids[i].node, b.kids[j].node, hash));
    }
  }

  lemma AloneNamed(kids: seq<Kid>, i: nat, name: Str)
    requires Alone(kids, i, name)
    ensures Named(kids, name) == i
  {
    NamedIs(kids, name, i);
  }

  lemma SurvivorsNext(a: Tree, b: Tree, i: nat, hash: Str -> u32)
    requires i < |a.kids|
    ensures Survivors(a, b, i + 1, hash) == Survivors(a, b, i, hash) + Survivor(a, b, i, hash)
  {
  }

  lemma Around(left: seq<Kid>, kids: seq<Kid>, i: nat)
    requires i < |kids|
    ensures var all := left + kids[i..];
            && |left| < |all| && all[|left|] == kids[i]
            && all[..|left|] + all[|left| + 1..] == left + [] + kids[i + 1..]
            && forall x :: all[|left| := x] == left + [x] + kids[i + 1..]
  {
    var all := left + kids[i..];
    forall x
      ensures all[|left| := x] == left + [x] + kids[i + 1..]
    {
    }
  }

  /** The namespaces only the second database has. */
  function Arrivals(a: Tree, b: Tree, m: nat, hash: Str -> u32): seq<Kid>
    requires m <= |b.kids|
  {
    if m == 0 then [] else
    Arrivals(a, b, m - 1, hash) + if FindKid(a.kids, hash, hash(b.kids[m - 1].name)) == |a.kids| then [b.kids[m - 1]]
                                  else []
  }

  lemma {:induction false} ArrivalNames(a: Tree, b: Tree, m: nat, hash: Str -> u32, x: Kid)
    requires m <= |b.kids|
    ensures x in Arrivals(a, b, m, hash)
            <==> exists j :: 0 <= j < m && b.kids[j] == x && FindKid(a.kids, hash, hash(b.kids[j].name)) == |a.kids|
  {
    hide FindKid;
    if m > 0 {
      ArrivalNames(a, b, m - 1, hash, x);
    }
  }

  lemma {:induction false} NewPatched(a: Tree, b: Tree, m: nat, hash: Str -> u32, t: Tree)
    requires TreeOk(a, hash) && TreeOk(b, hash) && Compatible(a, b, hash) && m <= |b.kids|
             && t == a.(kids := Survivors(a, b, |a.kids|, hash))
    ensures PatchAll(t, NewKids(a, b, m, hash)) == t.(kids := t.kids + Arrivals(a, b, m, hash))
  {
    hide PatchAll, FindKid, TreeOk, Compatible, Survivors, ReportAll;
    if m == 0 {
      PatchNone(t);
      assert t.kids + [] == t.kids;
    } else {
      var kid := b.kids[m - 1];
      NewPatched(a, b, m - 1, hash, t);
      PatchConcat(t, NewKids(a, b, m - 1, hash), NewKid(a, b, m - 1, hash));
      var u := t.(kids := t.kids + Arrivals(a, b, m - 1, hash));
      if FindKid(a.kids, hash, hash(kid.name)) == |a.kids| {
        Unnamed(a, b, m - 1, hash);
        KidOk(b, m - 1, hash);
        Built(kid.node, hash);
        Created(u, kid.name, ReportAll(kid.node, true));
        Assoc(t.kids, Arrivals(a, b, m - 1, hash), [kid]);
        assert Kid(kid.name, kid.node) == kid;
      } else {
        PatchNone(u);
        assert Arrivals(a, b, m - 1, hash) + [] == Arrivals(a, b, m - 1, hash);
      }
    }
  }

  lemma KidOk(t: Tree, i: nat, hash: Str -> u32)
    requires TreeOk(t, hash) && i < |t.kids|
    ensures TreeOk(t.kids[i].node, hash)
  {
  }

  lemma Unnamed(a: Tree, b: Tree, m: nat, hash: Str -> u32)
    requires TreeOk(b, hash) && Compatible(a, b, hash) && m < |b.kids|
    requires FindKid(a.kids, hash, hash(b.kids[m].name)) == |a.kids|
    ensures var kids := Survivors(a, b, |a.kids|, hash) + Arrivals(a, b, m, hash);
            forall x :: 0 <= x < |kids| ==> kids[x].name != b.kids[m].name
  {
    hide FindKid, Changes, PatchAll, Compatible;
    var left, come := Survivors(a, b, |a.kids|, hash), Arrivals(a, b, m, hash);
    Sibling(b, a, m, hash);
    forall x | 0 <= x < |left|
      ensures left[x].name != b.kids[m].name
    {
      SurvivorNames(a, b, |a.kids|, hash, left[x]);
    }
    NamesDiffer(b, hash);
    forall x | 0 <= x < |come|
      ensures come[x].name != b.kids[m].name
    {
      ArrivalNames(a, b, m, hash, come[x]);
    }
  }

  /** The patched database, part by part. */
  lemma PatchedTree(a: Tree, b: Tree, hash: Str -> u32)
    requires TreeOk(a, hash) && TreeOk(b, hash) && Compatible(a, b, hash)
    ensures PatchAll(a, Changes(a, b, hash))
            == Tree(PatchEntries(a.entries,
                                 DiffEntries(a.entries, b.entries, false) + DiffEntries(b.entries, a.entries, true)),
                    Survivors(a, b, |a.kids|, hash) + Arrivals(a, b, |b.kids|, hash))
  {
    hide PatchAll, PatchEntries, TreeOk, Compatible, DiffEntries, DiffKids, NewKids, Survivors, Arrivals;
    var t := a.(kids := Survivors(a, b, |a.kids|, hash));
    var kids, news := DiffKids(a, b, |a.kids|, hash), NewKids(a, b, |b.kids|, hash);
    var gone, added := DiffEntries(a.entries, b.entries, false), DiffEntries(b.entries, a.entries, true);
    KidsPatched(a, b, |a.kids|, hash);
    assert t.kids + a.kids[|a.kids|..] == t.kids;
    NewPatched(a, b, |b.kids|, hash, t);
    Assoc(kids + news, gone, added);
    PatchConcat(a, kids + news, gone + added);
    PatchConcat(a, kids, news);
    DiffEntriesOnEntries(a.entries, b.entries, false);
    DiffEntriesOnEntries(b.entries, a.entries, true);
    EntriesAlone(PatchAll(a, kids + news), gone + added);
  }

  /** What a sub-namespace contributes to the contents of its parent. */
  ghost predicate KidFact(x: Kid, f: Fact) {
    if f.path == [] then f.val.None? && x.name == f.key
    else x.name == f.path[0] && Has(x.node, f.(path := f.path[1..]))
  }

  lemma HasKids(t: Tree, f: Fact)
    ensures Has(t, f) <==> (exists x :: x in t.kids && KidFact(x, f))
                           || (f.path == [] && f.val.Some? && Pair(f.key, f.val.value) in t.entries)
  {
    hide Has;
    HasSplit(t, f);
    forall i | 0 <= i < |t.kids|
      ensures KidHas(t, i, f) <==> KidFact(t.kids[i], f)
    {
    }
    if exists i :: 0 <= i < |t.kids| && KidHas(t, i, f) {
      var i :| 0 <= i < |t.kids| && KidHas(t, i, f);
      assert t.kids[i] in t.kids && KidFact(t.kids[i], f);
    }
    if exists x :: x in t.kids && KidFact(x, f) {
      var x :| x in t.kids && KidFact(x, f);
      var i :| 0 <= i < |t.kids| && t.kids[i] == x;
      assert KidHas(t, i, f);
    }
  }

  /** The reports of a comparison, applied to the first database in the order they were
      made, give a database with exactly the contents of the second. */
  lemma {:induction false} PatchGives(a: Tree, b: Tree, hash: Str -> u32, f: Fact)
    requires TreeOk(a, hash) && TreeOk(b, hash) && Compatible(a, b, hash)
    ensures Has(PatchAll(a, Changes(a, b, hash)), f) <==> Has(b, f)
    decreases a
  {
    hide PatchAll, PatchEntries, DiffEntries, Changes, FindKid, Has, Survivor, Survivors, Arrivals, KidFact;
    PatchedTree(a, b, hash);
    var r := PatchAll(a, Changes(a, b, hash));
    HasKids(r, f);
    HasKids(b, f);
    EntriesOkay(a, hash);
    EntriesOkay(b, hash);
    if f.val.Some? {
      EntriesPatched(a.entries, b.entries, Pair(f.key, f.val.value));
    }
    var g := if f.path == [] then f else f.(path := f.path[1..]);
    forall i | 0 <= i < |a.kids| && FindKid(b.kids, hash, hash(a.kids[i].name)) < |b.kids|
      ensures Resembles(a, b, i, hash, g)
    {
      PatchGives(a.kids[i].node, b.kids[FindKid(b.kids, hash, hash(a.kids[i].name))].node, hash, g);
    }
    KidsGive(a, b, hash, f, g);
  }

  lemma KidsGive(a: Tree, b: Tree, hash: Str -> u32, f: Fact, g: Fact)
    requires TreeOk(a, hash) && TreeOk(b, hash) && Compatible(a, b, hash)
    requires g == if f.path == [] then f else f.(path := f.path[1..])
    requires forall i :: 0 <= i < |a.kids| && FindKid(b.kids, hash, hash(a.kids[i].name)) < |b.kids|
               ==> Resembles(a, b, i, hash, g)
    ensures (exists x :: x in Survivors(a, b, |a.kids|, hash) + Arrivals(a, b, |b.kids|, hash) && KidFact(x, f))
            <==> (exists x :: x in b.kids && KidFact(x, f))
  {
    hide FindKid, Has, TreeOk, Compatible, Survivors, Arrivals, PatchAll, Changes;
    var all := Survivors(a, b, |a.kids|, hash) + Arrivals(a, b, |b.kids|, hash);
    forall x | x in all && KidFact(x, f)
      ensures exists y :: y in b.kids && KidFact(y, f)
    {
      if x in Survivors(a, b, |a.kids|, hash) {
        SurvivorNames(a, b, |a.kids|, hash, x);
        var i :| 0 <= i < |a.kids| && x in Survivor(a, b, i, hash) && a.kids[i].name == x.name;
        Sibling(a, b, i, hash);
        assert Resembles(a, b, i, hash, g);
        var y := b.kids[FindKid(b.kids, hash, hash(a.kids[i].name))];
        assert y in b.kids && KidFact(y, f);
      } else {
        ArrivalNames(a, b, |b.kids|, hash, x);
        assert x in b.kids;
      }
    }
    forall j | 0 <= j < |b.kids| && KidFact(b.kids[j], f)
      ensures exists x :: x in all && KidFact(x, f)
    {
      var i := FindKid(a.kids, hash, hash(b.kids[j].name));
      Sibling(b, a, j, hash);
      if i == |a.kids| {
        ArrivalNames(a, b, |b.kids|, hash, b.kids[j]);
        assert b.kids[j] in all;
      } else {
        FoundAt(b, j, hash);
        assert Resembles(a, b, i, hash, g);
        var x := Survivor(a, b, i, hash)[0];
        SurvivorIn(a, b, |a.kids|, hash, i, x);
        assert x in all && KidFact(x, f);
      }
    }
  }

  /** The patched namespace at `i` shows the fact exactly when its counterpart does. */
  ghost predicate Resembles(a: Tree, b: Tree, i: int, hash: Str -> u32, g: Fact) {
    && 0 <= i < |a.kids|
    && var j := FindKid(b.kids, hash, hash(a.kids[i].name));
    && j < |b.kids|
    && (Has(PatchAll(a.kids[i].node, Changes(a.kids[i].node, b.kids[j].node, hash)), g) <==> Has(b.kids[j].node, g))
  }

  lemma FoundAt(b: Tree, j: nat, hash: Str -> u32)
    requires TreeOk(b, hash) && j < |b.kids|
    ensures FindKid(b.kids, hash, hash(b.kids[j].name)) == j
  {
    var i := FindKid(b.kids, hash, hash(b.kids[j].name));
    assert i <= j;
  }
}
