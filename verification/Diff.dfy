/**
 src/diff.c: comparing two memory databases with their namespaces. What is reported
 as removed and added is exactly the difference, so it turns one into the other.
 */
module Diff {
  import opened Bytes
  import opened Options
  import opened TextFormat
  import opened TextRebuild

  /** An entry in a namespace, or with no value a sub-namespace. */
  datatype Fact = Fact(path: seq<Str>, key: Str, val: Option<Str>)

  /** One call of the difference callback. */
  datatype Change = Change(add: bool, fact: Fact)

  // --- contents ---

  ghost predicate NamedAt(t: Tree, i: int, name: Str) {
    0 <= i < |t.kids| && t.kids[i].name == name
  }

  /** What a database contains. */
  ghost predicate Has(t: Tree, f: Fact)
    decreases f.path
  {
    if f.path == [] then
      match f.val
      case None => exists i :: NamedAt(t, i, f.key)
      case Some(v) => Pair(f.key, v) in t.entries
    else exists i :: NamedAt(t, i, f.path[0]) && Has(t.kids[i].node, f.(path := f.path[1..]))
  }

  /** Across the two databases, too, namespaces of the same parent with the same hash
      have the same name. */
  ghost predicate Compatible(a: Tree, b: Tree, hash: Str -> u32)
    decreases a
  {
    forall i, j :: 0 <= i < |a.kids| && 0 <= j < |b.kids| && hash(a.kids[i].name) == hash(b.kids[j].name) ==>
      a.kids[i].name == b.kids[j].name && Compatible(a.kids[i].node, b.kids[j].node, hash)
  }

  // --- the reports ---

  function Lower(n: Str, c: Change): Change {
    c.(fact := c.fact.(path := [n] + c.fact.path))
  }

  /** The same reports, one namespace further down. */
  function Below(n: Str, cs: seq<Change>): seq<Change> {
    if cs == [] then [] else Below(n, cs[..|cs| - 1]) + [Lower(n, cs[|cs| - 1])]
  }

  /** `sdb_diff_report`: everything in a database. */
  function ReportAll(t: Tree, add: bool): seq<Change>
    decreases t, 1
  {
    ReportKids(t, |t.kids|, add) + ReportEntries(t.entries, add)
  }

  function ReportKids(t: Tree, n: nat, add: bool): seq<Change>
    requires n <= |t.kids|
    decreases t, 0, n
  {
    if n == 0 then [] else ReportKids(t, n - 1, add) + ReportKid(t, n - 1, add)
  }

  /** A namespace and all it contains. */
  function ReportKid(t: Tree, i: nat, add: bool): seq<Change>
    requires i < |t.kids|
    decreases t, 0, i, 1
  {
    [Change(add, Fact([], t.kids[i].name, None))] + Below(t.kids[i].name, ReportAll(t.kids[i].node, add))
  }

  function ReportEntries(es: seq<Pair>, add: bool): seq<Change> {
    if es == [] then [] else
    ReportEntries(es[..|es| - 1], add) + [Change(add, Fact([], es[|es| - 1].key, Some(es[|es| - 1].val)))]
  }

  /** `sdb_const_get` in a memory database. */
  function Lookup(es: seq<Pair>, k: Str): (r: Option<Str>)
    ensures r.None? ==> forall i :: 0 <= i < |es| ==> es[i].key != k
    ensures r.Some? ==> Pair(k, r.value) in es
  {
    if es == [] then None
    else if es[|es| - 1].key == k then Some(es[|es| - 1].val)
    else Lookup(es[..|es| - 1], k)
  }

  /** `sdb_diff_kv_cb`: one entry compared with the other database. */
  function DiffEntry(e: Pair, other: seq<Pair>, add: bool): seq<Change> {
    match Lookup(other, e.key)
    case None => [Change(add, Fact([], e.key, Some(e.val)))]
    case Some(v) =>
      if v == [] then [Change(add, Fact([], e.key, Some(e.val)))]
      else if !add && v != e.val
           then [Change(false, Fact([], e.key, Some(e.val))), Change(true, Fact([], e.key, Some(v)))]
      else []
  }

  function DiffEntries(es: seq<Pair>, other: seq<Pair>, add: bool): seq<Change> {
    if es == [] then [] else DiffEntries(es[..|es| - 1], other, add) + DiffEntry(es[|es| - 1], other, add)
  }

  /** `sdb_diff_ctx`. */
  function Changes(a: Tree, b: Tree, hash: Str -> u32): seq<Change>
    decreases a, 1
  {
    DiffKids(a, b, |a.kids|, hash) + NewKids(a, b, |b.kids|, hash)
    + DiffEntries(a.entries, b.entries, false) + DiffEntries(b.entries, a.entries, true)
  }

  function DiffKids(a: Tree, b: Tree, n: nat, hash: Str -> u32): seq<Change>
    requires n <= |a.kids|
    decreases a, 0, n
  {
    if n == 0 then [] else DiffKids(a, b, n - 1, hash) + DiffKid(a, b, n - 1, hash)
  }

  /** A namespace of the first database, gone or compared in turn. */
  function DiffKid(a: Tree, b: Tree, i: nat, hash: Str -> u32): seq<Change>
    requires i < |a.kids|
    decreases a, 0, i, 1
  {
    var j := FindKid(b.kids, hash, hash(a.kids[i].name));
    if j == |b.kids| then ReportKid(a, i, false)
    else Below(a.kids[i].name, Changes(a.kids[i].node, b.kids[j].node, hash))
  }

  function NewKids(a: Tree, b: Tree, n: nat, hash: Str -> u32): seq<Change>
    requires n <= |b.kids|
  {
    if n == 0 then [] else NewKids(a, b, n - 1, hash) + NewKid(a, b, n - 1, hash)
  }

  function NewKid(a: Tree, b: Tree, i: nat, hash: Str -> u32): seq<Change>
    requires i < |b.kids|
  {
    if FindKid(a.kids, hash, hash(b.kids[i].name)) == |a.kids| then ReportKid(b, i, true) else []
  }

  // --- membership ---

  lemma {:induction false} InBelow(n: Str, cs: seq<Change>, c: Change)
    ensures c in Below(n, cs) <==> c.fact.path != [] && c.fact.path[0] == n
                                   && c.(fact := c.fact.(path := c.fact.path[1..])) in cs
  {
    if cs != [] {
      InBelow(n, cs[..|cs| - 1], c);
      var d := cs[|cs| - 1];
      assert ([n] + d.fact.path)[1..] == d.fact.path;
      assert c.fact.path != [] ==> [c.fact.path[0]] + c.fact.path[1..] == c.fact.path;
      assert cs == cs[..|cs| - 1] + [d];
    }
  }

  /** What a report of one namespace, or of all, says. */
  ghost predicate KidHas(t: Tree, i: nat, f: Fact)
    requires i < |t.kids|
  {
    if f.path == [] then f.val.None? && t.kids[i].name == f.key
    else t.kids[i].name == f.path[0] && Has(t.kids[i].node, f.(path := f.path[1..]))
  }

  lemma {:induction false} InReportAll(t: Tree, add: bool, c: Change)
    ensures c in ReportAll(t, add) <==> c.add == add && Has(t, c.fact)
    decreases t, 1
  {
    InReportKids(t, |t.kids|, add, c);
    InReportEntries(t.entries, add, c);
    HasSplit(t, c.fact);
  }

  lemma HasSplit(t: Tree, f: Fact)
    ensures Has(t, f) <==> (exists i :: 0 <= i < |t.kids| && KidHas(t, i, f))
                           || (f.path == [] && f.val.Some? && Pair(f.key, f.val.value) in t.entries)
  {
    if f.path != [] || f.val.None? {
      if Has(t, f) {
        var n := if f.path == [] then f.key else f.path[0];
        var i :| NamedAt(t, i, n) && (f.path == [] || Has(t.kids[i].node, f.(path := f.path[1..])));
        assert KidHas(t, i, f);
      }
      if exists i :: 0 <= i < |t.kids| && KidHas(t, i, f) {
        var i :| 0 <= i < |t.kids| && KidHas(t, i, f);
        assert NamedAt(t, i, if f.path == [] then f.key else f.path[0]);
      }
    }
  }

  lemma {:induction false} InReportKids(t: Tree, n: nat, add: bool, c: Change)
    requires n <= |t.kids|
    ensures c in ReportKids(t, n, add) <==> c.add == add && exists i :: 0 <= i < n && KidHas(t, i, c.fact)
    decreases t, 0, n
  {
    if n > 0 {
      InReportKids(t, n - 1, add, c);
      InReportKid(t, n - 1, add, c);
    }
  }

  lemma {:induction false} InReportKid(t: Tree, i: nat, add: bool, c: Change)
    requires i < |t.kids|
    ensures c in ReportKid(t, i, add) <==> c.add == add && KidHas(t, i, c.fact)
    decreases t, 0, i, 1
  {
    InBelow(t.kids[i].name, ReportAll(t.kids[i].node, add), c);
    if c.fact.path != [] {
      InReportAll(t.kids[i].node, add, c.(fact := c.fact.(path := c.fact.path[1..])));
    }
  }

  lemma {:induction false} InReportEntries(es: seq<Pair>, add: bool, c: Change)
    ensures c in ReportEntries(es, add)
            <==> c.add == add && c.fact.path == [] && c.fact.val.Some? && Pair(c.fact.key, c.fact.val.value) in es
  {
    if es != [] {
      InReportEntries(es[..|es| - 1], add, c);
      assert es == es[..|es| - 1] + [es[|es| - 1]];
    }
  }

  // --- entries ---

  ghost predicate EntriesOk(es: seq<Pair>) {
    && (forall i :: 0 <= i < |es| ==> PairOk(es[i]))
    && (forall i, j :: 0 <= i < j < |es| ==> es[i].key != es[j].key)
  }

  lemma LookupIs(es: seq<Pair>, k: Str, v: Str)
    requires EntriesOk(es)
    ensures Pair(k, v) in es <==> Lookup(es, k) == Some(v)
    ensures Lookup(es, k).Some? ==> Lookup(es, k).value != []
  {
    var r := Lookup(es, k);
    if r.Some? {
      var i :| 0 <= i < |es| && es[i] == Pair(k, r.value);
      assert PairOk(es[i]);
      if Pair(k, v) in es {
        var j :| 0 <= j < |es| && es[j] == Pair(k, v);
        assert i == j;
      }
    }
  }

  lemma {:induction false} InDiffEntries(es: seq<Pair>, other: seq<Pair>, add: bool, c: Change)
    ensures c in DiffEntries(es, other, add) <==> exists i :: 0 <= i < |es| && c in DiffEntry(es[i], other, add)
  {
    hide DiffEntry;
    if es != [] {
      var n := |es| - 1;
      InDiffEntries(es[..n], other, add, c);
      assert forall i :: 0 <= i < n ==> es[..n][i] == es[i];
      if exists i :: 0 <= i < |es| && c in DiffEntry(es[i], other, add) {
        var i :| 0 <= i < |es| && c in DiffEntry(es[i], other, add);
        assert i < n ==> c in DiffEntry(es[..n][i], other, add);
      }
    }
  }

  /** The entry reports between two lists. */
  ghost predicate EntryChange(es: seq<Pair>, other: seq<Pair>, c: Change) {
    && c.fact.path == [] && c.fact.val.Some?
    && var p := Pair(c.fact.key, c.fact.val.value);
    if c.add then p in other && p !in es else p in es && p !in other
  }

  lemma InEntryChanges(es: seq<Pair>, other: seq<Pair>, c: Change)
    requires EntriesOk(es) && EntriesOk(other)
    ensures c in DiffEntries(es, other, false) || c in DiffEntries(other, es, true) <==> EntryChange(es, other, c)
  {
    hide EntriesOk, Lookup, DiffEntries;
    InDiffEntries(es, other, false, c);
    InDiffEntries(other, es, true, c);
    forall i | 0 <= i < |es| && c in DiffEntry(es[i], other, false)
      ensures EntryChange(es, other, c)
    {
      OneGone(es, other, i, c);
    }
    forall i | 0 <= i < |other| && c in DiffEntry(other[i], es, true)
      ensures EntryChange(es, other, c)
    {
      OneNew(es, other, i, c);
    }
    if EntryChange(es, other, c) {
      AllChanged(es, other, c);
    }
  }

  lemma OneGone(es: seq<Pair>, other: seq<Pair>, i: nat, c: Change)
    requires EntriesOk(es) && EntriesOk(other) && i < |es| && c in DiffEntry(es[i], other, false)
    ensures EntryChange(es, other, c)
  {
    hide EntriesOk, Lookup;
    var e := es[i];
    LookupIs(other, e.key, e.val);
    LookupIs(es, e.key, e.val);
    LookupIs(es, c.fact.key, c.fact.val.value);
    LookupIs(other, c.fact.key, c.fact.val.value);
  }

  lemma OneNew(es: seq<Pair>, other: seq<Pair>, i: nat, c: Change)
    requires EntriesOk(es) && EntriesOk(other) && i < |other| && c in DiffEntry(other[i], es, true)
    ensures EntryChange(es, other, c)
  {
    hide EntriesOk, Lookup;
    var e := other[i];
    LookupIs(es, e.key, e.val);
  }

  lemma AllChanged(es: seq<Pair>, other: seq<Pair>, c: Change)
    requires EntriesOk(es) && EntriesOk(other) && EntryChange(es, other, c)
    ensures (exists i :: 0 <= i < |es| && c in DiffEntry(es[i], other, false))
            || (exists i :: 0 <= i < |other| && c in DiffEntry(other[i], es, true))
  {
    hide EntriesOk, Lookup;
    var k, v := c.fact.key, c.fact.val.value;
    LookupIs(es, k, v);
    LookupIs(other, k, v);
    if !c.add {
      var i :| 0 <= i < |es| && es[i] == Pair(k, v);
      assert c in DiffEntry(es[i], other, false);
    } else if Lookup(es, k).None? {
      var i :| 0 <= i < |other| && other[i] == Pair(k, v);
      assert c in DiffEntry(other[i], es, true);
    } else {
      var w := Lookup(es, k).value;
      LookupIs(es, k, w);
      var i :| 0 <= i < |es| && es[i] == Pair(k, w);
      assert c in DiffEntry(es[i], other, false);
    }
  }

  // --- namespaces ---

  ghost predicate Reported(a: Tree, b: Tree, i: int, hash: Str -> u32, c: Change) {
    0 <= i < |a.kids| && c in DiffKid(a, b, i, hash)
  }

  lemma {:induction false} InDiffKids(a: Tree, b: Tree, n: nat, hash: Str -> u32, c: Change)
    requires n <= |a.kids|
    ensures c in DiffKids(a, b, n, hash) <==> exists i :: 0 <= i < n && Reported(a, b, i, hash, c)
  {
    if n > 0 {
      InDiffKids(a, b, n - 1, hash, c);
      assert c in DiffKid(a, b, n - 1, hash) <==> Reported(a, b, n - 1, hash, c);
    }
  }

  lemma {:induction false} InNewKids(a: Tree, b: Tree, n: nat, hash: Str -> u32, c: Change)
    requires n <= |b.kids|
    ensures c in NewKids(a, b, n, hash) <==> exists i :: 0 <= i < n && c in NewKid(a, b, i, hash)
  {
    hide NewKid;
    if n > 0 {
      InNewKids(a, b, n - 1, hash, c);
    }
  }

  /** The name a fact is about at this level. */
  function NameOf(f: Fact): Str {
    if f.path == [] then f.key else f.path[0]
  }

  lemma Missing(t: Tree, f: Fact)
    requires f.path != [] || f.val.None?
    requires forall i :: 0 <= i < |t.kids| ==> t.kids[i].name != NameOf(f)
    ensures !Has(t, f)
  {
  }

  lemma There(t: Tree, i: nat, f: Fact, hash: Str -> u32)
    requires (f.path != [] || f.val.None?) && i < |t.kids| && t.kids[i].name == NameOf(f) && TreeOk(t, hash)
    ensures Has(t, f) <==> KidHas(t, i, f)
  {
    assert NamedAt(t, i, NameOf(f));
    if f.path != [] && Has(t, f) {
      var j :| NamedAt(t, j, f.path[0]) && Has(t.kids[j].node, f.(path := f.path[1..]));
      assert j == i;
    }
  }

  /** The hash lookup finds the namespace of the same name, or there is none. */
  lemma Sibling(a: Tree, b: Tree, i: nat, hash: Str -> u32)
    requires i < |a.kids| && (Compatible(a, b, hash) || Compatible(b, a, hash))
    ensures var j := FindKid(b.kids, hash, hash(a.kids[i].name));
            if j < |b.kids| then b.kids[j].name == a.kids[i].name
            else forall x :: 0 <= x < |b.kids| ==> b.kids[x].name != a.kids[i].name
  {
  }

  ghost predicate Differs(a: Tree, b: Tree, c: Change) {
    if c.add then Has(b, c.fact) && !Has(a, c.fact) else Has(a, c.fact) && !Has(b, c.fact)
  }

  function Strip(c: Change): Change {
    if c.fact.path == [] then c else c.(fact := c.fact.(path := c.fact.path[1..]))
  }

  ghost predicate Reportable(a: Tree, b: Tree, i: int, hash: Str -> u32, c: Change) {
    && 0 <= i < |a.kids| && (c.fact.path != [] || c.fact.val.None?) && NameOf(c.fact) == a.kids[i].name
    && Differs(a, b, c)
    && (FindKid(b.kids, hash, hash(a.kids[i].name)) < |b.kids| || !c.add)
  }

  /** What the first loop reports about a namespace of the first database. */
  lemma InDiffKid(a: Tree, b: Tree, i: nat, hash: Str -> u32, c: Change)
    requires i < |a.kids| && TreeOk(a, hash) && TreeOk(b, hash) && Compatible(a, b, hash)
    requires var j := FindKid(b.kids, hash, hash(a.kids[i].name));
             j < |b.kids| && c.fact.path != []
             ==> (Strip(c) in Changes(a.kids[i].node, b.kids[j].node, hash)
                  <==> Differs(a.kids[i].node, b.kids[j].node, Strip(c)))
    ensures c in DiffKid(a, b, i, hash) <==> Reportable(a, b, i, hash, c)
  {
    hide TreeOk, Compatible, Changes, Has, FindKid;
    var j := FindKid(b.kids, hash, hash(a.kids[i].name));
    var f := c.fact;
    Sibling(a, b, i, hash);
    if (f.path != [] || f.val.None?) && NameOf(f) == a.kids[i].name {
      There(a, i, f, hash);
      if j == |b.kids| {
        Missing(b, f);
      } else {
        There(b, j, f, hash);
      }
    }
    if j == |b.kids| {
      InReportKid(a, i, false, c);
    } else {
      InBelow(a.kids[i].name, Changes(a.kids[i].node, b.kids[j].node, hash), c);
    }
  }

  lemma InNewKid(a: Tree, b: Tree, i: nat, hash: Str -> u32, c: Change)
    requires i < |b.kids| && TreeOk(b, hash) && Compatible(a, b, hash)
    ensures c in NewKid(a, b, i, hash)
            <==> (c.fact.path != [] || c.fact.val.None?) && NameOf(c.fact) == b.kids[i].name && c.add
                 && Differs(a, b, c)
                                            && FindKid(a.kids, hash, hash(b.kids[i].name)) == |a.kids|
  {
    hide TreeOk, Compatible, Has, FindKid;
    var f := c.fact;
    Sibling(b, a, i, hash);
    if FindKid(a.kids, hash, hash(b.kids[i].name)) == |a.kids| {
      InReportKid(b, i, true, c);
      if (f.path != [] || f.val.None?) && NameOf(f) == b.kids[i].name {
        There(b, i, f, hash);
        Missing(a, f);
      }
    }
  }

  /** Every namespace change has exactly one of the two loops to report it. */
  lemma KidChanges(a: Tree, b: Tree, hash: Str -> u32, c: Change)
    requires TreeOk(a, hash) && TreeOk(b, hash) && Compatible(a, b, hash)
    requires forall i :: 0 <= i < |a.kids| ==> (Reported(a, b, i, hash, c) <==> Reportable(a, b, i, hash, c))
    ensures (c.fact.path != [] || c.fact.val.None?) && Differs(a, b, c) <==>
              (exists i :: 0 <= i < |a.kids| && Reported(a, b, i, hash, c))
                  || (exists i :: 0 <= i < |b.kids| && c in NewKid(a, b, i, hash))
  {
    hide TreeOk, Compatible, Reported, NewKid, FindKid;
    var f := c.fact;
    forall i | 0 <= i < |b.kids|
      ensures c in NewKid(a, b, i, hash)
              <==> (f.path != [] || f.val.None?) && NameOf(f) == b.kids[i].name && c.add && Differs(a, b, c)
                                              && FindKid(a.kids, hash, hash(b.kids[i].name)) == |a.kids|
    {
      InNewKid(a, b, i, hash, c);
    }
    if (f.path != [] || f.val.None?) && Differs(a, b, c) {
      if forall i :: 0 <= i < |a.kids| ==> a.kids[i].name != NameOf(f) {
        Missing(a, f);
        Holder(b, f);
        var j :| 0 <= j < |b.kids| && b.kids[j].name == NameOf(f);
        Sibling(b, a, j, hash);
        assert c in NewKid(a, b, j, hash);
      } else {
        var i :| 0 <= i < |a.kids| && a.kids[i].name == NameOf(f);
        Sibling(a, b, i, hash);
        if c.add {
          Holder(b, f);
        }
        assert Reportable(a, b, i, hash, c);
      }
    }
  }

  lemma Holder(t: Tree, f: Fact)
    requires (f.path != [] || f.val.None?) && Has(t, f)
    ensures exists j :: 0 <= j < |t.kids| && t.kids[j].name == NameOf(f)
  {
    var j :| NamedAt(t, j, NameOf(f));
  }

  /** The reports are exactly the differences: removals of what only the first database
      contains, additions of what only the second contains. */
  lemma {:induction false} ChangesAre(a: Tree, b: Tree, hash: Str -> u32, c: Change)
    requires TreeOk(a, hash) && TreeOk(b, hash) && Compatible(a, b, hash)
    ensures c in Changes(a, b, hash) <==> Differs(a, b, c)
    decreases a
  {
    hide DiffEntries, DiffKids, NewKids, EntriesOk;
    InDiffKids(a, b, |a.kids|, hash, c);
    InNewKids(a, b, |b.kids|, hash, c);
    forall i | 0 <= i < |a.kids|
      ensures Reported(a, b, i, hash, c) <==> Reportable(a, b, i, hash, c)
    {
      var j := FindKid(b.kids, hash, hash(a.kids[i].name));
      if j < |b.kids| {
        ChangesAre(a.kids[i].node, b.kids[j].node, hash, Strip(c));
      }
      InDiffKid(a, b, i, hash, c);
    }
    KidChanges(a, b, hash, c);
    EntriesOkay(a, hash);
    EntriesOkay(b, hash);
    InEntryChanges(a.entries, b.entries, c);
  }

  lemma EntriesOkay(t: Tree, hash: Str -> u32)
    requires TreeOk(t, hash)
    ensures EntriesOk(t.entries)
  {
  }

  /** No report means equal contents, and the other way round. */
  lemma SilentIffEqual(a: Tree, b: Tree, hash: Str -> u32)
    requires TreeOk(a, hash) && TreeOk(b, hash) && Compatible(a, b, hash)
    ensures Changes(a, b, hash) == [] <==> forall f :: Has(a, f) <==> Has(b, f)
  {
    hide TreeOk, Compatible, Changes, Has;
    if Changes(a, b, hash) != [] {
      var c := Changes(a, b, hash)[0];
      ChangesAre(a, b, hash, c);
      assert !(Has(a, c.fact) <==> Has(b, c.fact));
    } else {
      forall f
        ensures Has(a, f) <==> Has(b, f)
      {
        ChangesAre(a, b, hash, Change(false, f));
        ChangesAre(a, b, hash, Change(true, f));
      }
    }
  }

  lemma {:induction false} BelowEmpty(n: Str, cs: seq<Change>)
    ensures |Below(n, cs)| == |cs|
  {
    if cs != [] {
      BelowEmpty(n, cs[..|cs| - 1]);
    }
  }

  lemma ChangesParts(a: Tree, b: Tree, hash: Str -> u32)
    ensures Changes(a, b, hash) == DiffKids(a, b, |a.kids|, hash) + NewKids(a, b, |b.kids|, hash)
                                   + DiffEntries(a.entries, b.entries, false) + DiffEntries(b.entries, a.entries, true)
  {
    hide DiffKids, NewKids, DiffEntries;
  }

  /** `sdb_diff_ctx`. Without a callback the comparison of a namespace stops at its
      first difference. */
  method Compare(a: Tree, b: Tree, hash: Str -> u32, cb: bool) returns (equal: bool, out: seq<Change>)
    ensures equal <==> Changes(a, b, hash) == []
    ensures cb ==> out == Changes(a, b, hash)
    decreases a, 1
  {
    hide DiffKids, NewKids, DiffEntries, Changes;
    ChangesParts(a, b, hash);
    var stop, same, more, rest;
    equal, out, stop := CompareKids(a, b, hash, cb);
    if stop {
      return;
    }
    same, more := CompareNew(a, b, hash, cb);
    equal, out := equal && same, out + more;
    if !same && !cb {
      return;
    }
    same, more := CompareEntries(a.entries, b.entries, false, cb);
    equal := equal && same;
    if !same && !cb {
      return;
    }
    same, rest := CompareEntries(b.entries, a.entries, true, cb);
    equal, out := equal && same, out + more + rest;
  }

  /** The loop over the namespaces of the first database. */
  method CompareKids(a: Tree, b: Tree, hash: Str -> u32, cb: bool) returns (equal: bool, out: seq<Change>, stop: bool)
    ensures equal <==> DiffKids(a, b, |a.kids|, hash) == []
    ensures cb ==> out == DiffKids(a, b, |a.kids|, hash) && !stop
    ensures stop ==> !equal
    decreases a, 0
  {
    hide Below, ReportKid, FindKid, Changes, DiffKids;
    equal, out, stop := true, [], false;
    DiffKidsNone(a, b, hash);
    for i := 0 to |a.kids|
      invariant equal <==> DiffKids(a, b, i, hash) == []
      invariant cb ==> out == DiffKids(a, b, i, hash)
    {
      var kid := a.kids[i];
      DiffKidsNext(a, b, i, hash);
      var j := FindKid(b.kids, hash, hash(kid.name));
      if j == |b.kids| {
        equal := false;
        ReportKidSome(a, i, false);
        if cb {
          out := out + ReportKid(a, i, false);
        } else {
          NonEmptyKids(a, b, i + 1, hash);
          stop := true;
          return;
        }
      } else {
        var same, sub := Compare(kid.node, b.kids[j].node, hash, cb);
        BelowEmpty(kid.name, Changes(kid.node, b.kids[j].node, hash));
        equal := equal && same;
        if cb {
          out := out + Below(kid.name, sub);
        }
      }
    }
  }

  lemma DiffKidsNone(a: Tree, b: Tree, hash: Str -> u32)
    ensures DiffKids(a, b, 0, hash) == []
  {
  }

  lemma DiffKidsNext(a: Tree, b: Tree, i: nat, hash: Str -> u32)
    requires i < |a.kids|
    ensures DiffKids(a, b, i + 1, hash) == DiffKids(a, b, i, hash) + DiffKid(a, b, i, hash)
  {
    hide FindKid, Changes, ReportKid, Below;
  }

  /** The loop over the namespaces of the second database. */
  method CompareNew(a: Tree, b: Tree, hash: Str -> u32, cb: bool) returns (equal: bool, out: seq<Change>)
    ensures equal <==> NewKids(a, b, |b.kids|, hash) == []
    ensures cb ==> out == NewKids(a, b, |b.kids|, hash)
  {
    hide ReportKid, FindKid, NewKids;
    equal, out := true, [];
    NewKidsNone(a, b, hash);
    for i := 0 to |b.kids|
      invariant equal <==> NewKids(a, b, i, hash) == []
      invariant cb ==> out == NewKids(a, b, i, hash)
    {
      NewKidsNext(a, b, i, hash);
      if FindKid(a.kids, hash, hash(b.kids[i].name)) == |a.kids| {
        equal := false;
        ReportKidSome(b, i, true);
        if cb {
          out := out + ReportKid(b, i, true);
        } else {
          NonEmptyNew(a, b, i + 1, hash);
          return;
        }
      }
    }
  }

  lemma NewKidsNone(a: Tree, b: Tree, hash: Str -> u32)
    ensures NewKids(a, b, 0, hash) == []
  {
  }

  lemma NewKidsNext(a: Tree, b: Tree, i: nat, hash: Str -> u32)
    requires i < |b.kids|
    ensures NewKids(a, b, i + 1, hash) == NewKids(a, b, i, hash) + NewKid(a, b, i, hash)
  {
    hide FindKid, ReportKid;
  }

  /** `sdb_foreach` with `sdb_diff_kv_cb`. */
  method CompareEntries(es: seq<Pair>, other: seq<Pair>, add: bool, cb: bool) returns (equal: bool, out: seq<Change>)
    ensures equal <==> DiffEntries(es, other, add) == []
    ensures cb ==> out == DiffEntries(es, other, add)
  {
    hide DiffEntries, DiffEntry;
    equal, out := true, [];
    assert es[..0] == [];
    NoEntriesDiffer(other, add);
    for i := 0 to |es|
      invariant equal <==> DiffEntries(es[..i], other, add) == []
      invariant cb ==> out == DiffEntries(es[..i], other, add)
    {
      DiffEntriesNext(es, other, add, i);
      var d := DiffEntry(es[i], other, add);
      if d != [] {
        equal := false;
        if cb {
          out := out + d;
        } else {
          NonEmptyEntries(es, other, add, i + 1);
          return;
        }
      }
    }
    assert es[..|es|] == es;
  }

  lemma NoEntriesDiffer(other: seq<Pair>, add: bool)
    ensures DiffEntries([], other, add) == []
  {
  }

  lemma DiffEntriesNext(es: seq<Pair>, other: seq<Pair>, add: bool, n: nat)
    requires n < |es|
    ensures DiffEntries(es[..n + 1], other, add) == DiffEntries(es[..n], other, add) + DiffEntry(es[n], other, add)
  {
    hide DiffEntry;
    assert es[..n + 1][..n] == es[..n] && es[..n + 1][n] == es[n];
  }

  lemma ReportKidSome(t: Tree, i: nat, add: bool)
    requires i < |t.kids|
    ensures ReportKid(t, i, add) != []
  {
  }

  lemma {:induction false} NonEmptyKids(a: Tree, b: Tree, n: nat, hash: Str -> u32)
    requires n <= |a.kids| && DiffKids(a, b, n, hash) != []
    ensures DiffKids(a, b, |a.kids|, hash) != []
    decreases |a.kids| - n
  {
    hide DiffKids, DiffKid;
    if n < |a.kids| {
      DiffKidsNext(a, b, n, hash);
      NonEmptyKids(a, b, n + 1, hash);
    }
  }

  lemma {:induction false} NonEmptyNew(a: Tree, b: Tree, n: nat, hash: Str -> u32)
    requires n <= |b.kids| && NewKids(a, b, n, hash) != []
    ensures NewKids(a, b, |b.kids|, hash) != []
    decreases |b.kids| - n
  {
    hide NewKids, NewKid;
    if n < |b.kids| {
      NewKidsNext(a, b, n, hash);
      NonEmptyNew(a, b, n + 1, hash);
    }
  }

  lemma {:induction false} NonEmptyEntries(es: seq<Pair>, other: seq<Pair>, add: bool, n: nat)
    requires n <= |es| && DiffEntries(es[..n], other, add) != []
    ensures DiffEntries(es, other, add) != []
    decreases |es| - n
  {
    hide DiffEntries, DiffEntry;
    if n < |es| {
      DiffEntriesNext(es, other, add, n);
      NonEmptyEntries(es, other, add, n + 1);
    } else {
      assert es[..n] == es;
    }
  }

  /** `sdb_diff`: true exactly when the contents are equal. */
  method SdbDiff(a: Tree, b: Tree, hash: Str -> u32, cb: bool) returns (equal: bool, out: seq<Change>)
    requires TreeOk(a, hash) && TreeOk(b, hash) && Compatible(a, b, hash)
    ensures equal <==> forall f :: Has(a, f) <==> Has(b, f)
    ensures cb ==> forall c :: c in out <==> Differs(a, b, c)
  {
    hide TreeOk, Compatible, Changes, Has, Differs;
    equal, out := Compare(a, b, hash, cb);
    SilentIffEqual(a, b, hash);
    forall c
      ensures c in Changes(a, b, hash) <==> Differs(a, b, c)
    {
      ChangesAre(a, b, hash, c);
    }
  }
}
