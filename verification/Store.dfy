/**
 src/sdb.c and src/disk.c: the in-memory table over the database file. Reading,
 setting, and the sync that merges both into a new file and swaps it in.

 The hash table is a map here (HashTable shows that the real one is); entries
 are visited in an arbitrary order. Clocks are left out: an entry's expiry is
 kept but never reached.
 */
module Store {
  import opened Bytes
  import opened Options
  import opened Buffers
  import opened CdbFormat
  import opened CdbReader
  import opened CdbWriter
  import opened DiskWalk

  /** An in-memory entry. A null value is what setting the empty string stores. */
  datatype Kv = Kv(value: Option<Str>, cas: nat, expire: nat)

  /** Empty and absent are the same to a reader. */
  function NonEmpty(v: Option<Str>): Option<Str> {
    if v.None? || v.value == [] then None else v
  }

  /** What the mapped file answers for a key. */
  function DiskGet(image: Option<seq<byte>>, hash: Str -> u32, key: Str): Option<Str> {
    match image
    case None => None
    case Some(file) =>
      match Lookup(file, hash(key), key)
      case Found(p, l) => if 1 <= l < VSZ && p + l <= |file| then NonEmpty(Some(CStr(file[p..p + l]))) else None
      case _ => None
  }

  /** `sdb_const_get`: memory first, then disk. */
  function Get(ht: map<Str, Kv>, image: Option<seq<byte>>, hash: Str -> u32, key: Str): Option<Str> {
    if key in ht then NonEmpty(ht[key].value) else DiskGet(image, hash, key)
  }

  // --- the records under one key ---

  /** Data of all records under `key`, in order. */
  function Datas(recs: seq<Rec>, key: Str): seq<Str> {
    if recs == [] then []
    else if recs[0].key == key then [recs[0].data] + Datas(recs[1..], key)
    else Datas(recs[1..], key)
  }

  lemma {:induction false} DatasSnoc(recs: seq<Rec>, r: Rec, key: Str)
    ensures Datas(recs + [r], key) == Datas(recs, key) + if r.key == key then [r.data] else []
  {
    if recs == [] {
      assert [r][1..] == [];
    } else {
      DatasSnoc(recs[1..], r, key);
      assert (recs + [r])[1..] == recs[1..] + [r];
    }
  }

  lemma {:induction false} DatasFirst(recs: seq<Rec>, key: Str)
    ensures FirstIndex(recs, key) < |recs| <==> Datas(recs, key) != []
    ensures FirstIndex(recs, key) < |recs| ==> recs[FirstIndex(recs, key)].data == Datas(recs, key)[0]
  {
    if recs != [] {
      DatasFirst(recs[1..], key);
    }
  }

  function FirstData(ds: seq<Str>): Option<Str> {
    if ds == [] then None else NonEmpty(Some(ds[0]))
  }

  /** A complete database answers with the first record of a key. */
  lemma DiskGetIs(file: seq<byte>, recs: seq<Rec>, hash: Str -> u32, key: Str)
    requires IsCdb(file, recs, hash) && forall r :: r in recs ==> IsCStr(r.data)
    ensures DiskGet(Some(file), hash, key) == FirstData(Datas(recs, key))
  {
    hide IsCdb, Lookup, CStr, Datas;
    LookupCorrect(file, recs, hash, key);
    DatasFirst(recs, key);
    var i := FirstIndex(recs, key);
    if i < |recs| {
      StoredLength(file, recs, hash, i);
      assert recs[i] in recs;
      CStrTerminated(recs[i].data);
    }
  }

  lemma StoredLength(file: seq<byte>, recs: seq<Rec>, hash: Str -> u32, i: nat)
    requires IsCdb(file, recs, hash) && i < |recs|
    ensures |recs[i].data| + 1 < VSZ
  {
    hide BucketOk, RecordAt, RecPos;
    var tabs, tpos :| IsCdbWith(file, recs, hash, tabs, tpos);
    assert Storable(recs[i]);
  }

  // --- what a sync writes ---

  /** What the walk over the old file sees, as records. */
  function Walked(steps: seq<Step>): (recs: seq<Rec>)
    ensures |recs| == |steps|
    ensures forall i :: 0 <= i < |recs| ==> recs[i].key == steps[i].key
  {
    if steps == [] then []
    else [Rec(steps[0].key, if steps[0].value.Some? then steps[0].value.value else [])] + Walked(steps[1..])
  }

  lemma {:induction false} WalkedSteps(recs: seq<Rec>, i: nat)
    requires i <= |recs|
    ensures Walked(Steps(recs, i)) == recs[i..]
    decreases |recs| - i
  {
    if i < |recs| {
      WalkedSteps(recs, i + 1);
      assert Steps(recs, i)[1..] == Steps(recs, i + 1);
    }
  }

  /** `seen` is the part of the old file walked so far and `out` what went into
      the new one: keys in memory appear once, with their memory value, if they
      are in `done` and not at all otherwise; other keys keep all their records. */
  ghost predicate Planned(ht: map<Str, Kv>, done: set<Str>, seen: seq<Rec>, out: seq<Rec>) {
    && done <= ht.Keys
    && (forall k :: k in done ==> ht[k].value.Some? && Datas(out, k) == [ht[k].value.value])
    && (forall k :: k in ht && k !in done ==> Datas(out, k) == [])
    && (forall k :: k !in ht ==> Datas(out, k) == Datas(seen, k))
    && (forall r :: r in out ==> IsCStr(r.data))
  }

  lemma PlannedSkip(ht: map<Str, Kv>, done: set<Str>, seen: seq<Rec>, out: seq<Rec>, r: Rec)
    requires Planned(ht, done, seen, out) && r.key in ht
    ensures Planned(ht, done, seen + [r], out)
  {
    hide Datas;
    forall k | k !in ht
      ensures Datas(seen + [r], k) == Datas(seen, k)
    {
      DatasSnoc(seen, r, k);
    }
  }

  /** A record of the old file goes over as it is. */
  lemma PlannedCopy(ht: map<Str, Kv>, done: set<Str>, seen: seq<Rec>, out: seq<Rec>, r: Rec)
    requires Planned(ht, done, seen, out) && r.key !in ht && IsCStr(r.data)
    ensures Planned(ht, done, seen + [r], out + [r])
  {
    hide Datas;
    forall k: Str
      ensures Datas(seen + [r], k) == Datas(seen, k) + if r.key == k then [r.data] else []
      ensures Datas(out + [r], k) == Datas(out, k) + if r.key == k then [r.data] else []
    {
      DatasSnoc(seen, r, k);
      DatasSnoc(out, r, k);
    }
  }

  /** A memory entry goes out for the first time. */
  lemma PlannedDirty(ht: map<Str, Kv>, done: set<Str>, seen: seq<Rec>, out: seq<Rec>, k: Str)
    requires Planned(ht, done, seen, out) && k in ht && k !in done && ht[k].value.Some? && IsCStr(ht[k].value.value)
    ensures Planned(ht, done + {k}, seen, out + [Rec(k, ht[k].value.value)])
  {
    hide Datas;
    var r := Rec(k, ht[k].value.value);
    forall x: Str
      ensures Datas(out + [r], x) == Datas(out, x) + if r.key == x then [r.data] else []
    {
      DatasSnoc(out, r, x);
    }
  }

  /** Dropping the entries that went out and reading the new file shows every key
      as memory over the walked records did. */
  lemma PlannedVisible(ht: map<Str, Kv>, done: set<Str>, seen: seq<Rec>, out: seq<Rec>, file: seq<byte>,
                       hash: Str -> u32, k: Str)
    requires Planned(ht, done, seen, out) && IsCdb(file, out, hash)
    ensures Get(ht - done, Some(file), hash, k) == if k in ht then NonEmpty(ht[k].value) else FirstData(Datas(seen, k))
  {
    hide Datas, IsCdb, DiskGet;
    DiskGetIs(file, out, hash, k);
  }

  /** The old file is a complete database whose walk ends with its records. */
  ghost predicate Clean(image: Option<seq<byte>>, recs: seq<Rec>, hash: Str -> u32) {
    match image
    case None => recs == []
    case Some(file) =>
      && IsCdb(file, recs, hash)
      && (forall k :: 0 <= k < |recs| ==> Walkable(recs[k]))
      && Stops(file)
  }

  /** All steps of a walk over the mapped file. */
  function Walk(image: Option<seq<byte>>): seq<Step> {
    if image.None? then [] else Dump(image.value, HEADER)
  }

  /** Memory over the records a walk of the file finds. */
  function Merged(ht: map<Str, Kv>, image: Option<seq<byte>>, k: Str): Option<Str> {
    if k in ht then NonEmpty(ht[k].value) else FirstData(Datas(Walked(Walk(image)), k))
  }

  lemma CleanGet(image: Option<seq<byte>>, recs: seq<Rec>, hash: Str -> u32, k: Str)
    requires Clean(image, recs, hash)
    ensures DiskGet(image, hash, k) == FirstData(Datas(Walked(Walk(image)), k))
  {
    hide Datas, IsCdb, Stops, DumpNext, Dump, Lookup, CStr;
    if image.Some? {
      WalkCorrect(image.value, recs, hash);
      WalkedSteps(recs, 0);
      assert recs[0..] == recs;
      DiskGetIs(image.value, recs, hash, k);
    } else {
      NoDatas(k);
    }
  }

  lemma NoDatas(k: Str)
    ensures Datas([], k) == []
  {
  }

  lemma {:induction false} WalkedSnoc(steps: seq<Step>, s: Step)
    ensures Walked(steps + [s]) == Walked(steps) + [Rec(s.key, if s.value.Some? then s.value.value else [])]
  {
    if steps == [] {
      assert [s][1..] == [];
    } else {
      WalkedSnoc(steps[1..], s);
      assert (steps + [s])[1..] == steps[1..] + [s];
    }
  }

  lemma PlannedNone(ht: map<Str, Kv>)
    ensures Planned(ht, {}, [], [])
  {
  }

  // --- the plan of a sync ---

  /** A walked key whose memory entry has a value. */
  ghost predicate Covers(ht: map<Str, Kv>, steps: seq<Step>, k: Str) {
    k in ht && ht[k].value.Some? && exists i :: 0 <= i < |steps| && steps[i].key == k
  }

  /** A step of the walk writes the memory value of its key, once, or the record itself
      when memory does not know the key. */
  ghost function FromStep(ht: map<Str, Kv>, before: seq<Step>, s: Step): seq<Rec> {
    if s.key !in ht then [Rec(s.key, if s.value.Some? then s.value.value else [])]
    else if ht[s.key].value.Some? && !Covers(ht, before, s.key) then [Rec(s.key, ht[s.key].value.value)]
    else []
  }

  ghost function OldPart(ht: map<Str, Kv>, steps: seq<Step>): seq<Rec> {
    if steps == [] then []
    else OldPart(ht, steps[..|steps| - 1]) + FromStep(ht, steps[..|steps| - 1], steps[|steps| - 1])
  }

  /** Memory entries that go out although the old file does not have them: those with a
      non-empty value and no expiry. */
  ghost predicate Fresh(ht: map<Str, Kv>, steps: seq<Step>, k: Str) {
    && k in ht && ht[k].value.Some? && ht[k].value.value != [] && ht[k].expire == 0
    && !Covers(ht, steps, k)
  }

  ghost function NewPart(ht: map<Str, Kv>, order: seq<Str>): seq<Rec> {
    if order == [] then []
    else var n := |order| - 1; NewPart(ht, order[..n]) + [EntryRec(ht, order[n])]
  }

  ghost function EntryRec(ht: map<Str, Kv>, k: Str): Rec {
    Rec(k, if k in ht && ht[k].value.Some? then ht[k].value.value else [])
  }

  ghost predicate NoDup(order: seq<Str>) {
    forall i, j :: 0 <= i < j < |order| ==> order[i] != order[j]
  }

  /** What a sync means to write: the old part in the order of the walk, then each fresh
      entry once, in some order. */
  ghost predicate Plan(ht: map<Str, Kv>, steps: seq<Step>, order: seq<Str>, recs: seq<Rec>) {
    && NoDup(order) && (forall k :: k in order <==> Fresh(ht, steps, k))
    && recs == OldPart(ht, steps) + NewPart(ht, order)
  }

  /** The walk can be copied: what memory does not cover has a value. */
  ghost predicate Valued(ht: map<Str, Kv>, steps: seq<Step>) {
    forall i :: 0 <= i < |steps| ==> steps[i].key in ht || steps[i].value.Some?
  }

  /** Records that can all be added. */
  ghost predicate Addable(recs: seq<Rec>) {
    AllStorable(recs) && RecPos(recs, |recs|) < TWO32
  }

  lemma AddableNone()
    ensures Addable([])
  {
  }

  lemma AddableSnoc(recs: seq<Rec>, r: Rec)
    ensures Addable(recs + [r]) <==> Addable(recs) && Storable(r) && RecPos(recs, |recs|) + RecSize(r) < TWO32
  {
    hide Storable, RecSize;
    var all := recs + [r];
    RecPosPrefix(recs, [r], |recs|);
    assert RecPos(all, |recs| + 1) == RecPos(all, |recs|) + RecSize(r);
    assert all[|recs|] == r && forall i :: 0 <= i < |recs| ==> all[i] == recs[i];
  }

  lemma {:induction false} AddablePrefix(recs: seq<Rec>, more: seq<Rec>)
    requires Addable(recs + more)
    ensures Addable(recs)
  {
    hide Addable;
    if more == [] {
      assert recs + more == recs;
    } else {
      var n := |more| - 1;
      assert recs + more == recs + more[..n] + [more[n]];
      AddableSnoc(recs + more[..n], more[n]);
      AddablePrefix(recs, more[..n]);
    }
  }

  lemma OldPartSnoc(ht: map<Str, Kv>, steps: seq<Step>, s: Step)
    ensures OldPart(ht, steps + [s]) == OldPart(ht, steps) + FromStep(ht, steps, s)
  {
    hide FromStep;
    assert (steps + [s])[..|steps|] == steps;
  }

  lemma {:induction false} OldPartMore(ht: map<Str, Kv>, steps: seq<Step>, more: seq<Step>) returns (rest: seq<Rec>)
    ensures OldPart(ht, steps + more) == OldPart(ht, steps) + rest
  {
    hide FromStep;
    if more == [] {
      rest := [];
      assert steps + more == steps;
    } else {
      var n := |more| - 1;
      rest := OldPartMore(ht, steps, more[..n]);
      assert steps + more == steps + more[..n] + [more[n]];
      OldPartSnoc(ht, steps + more[..n], more[n]);
      var s := FromStep(ht, steps + more[..n], more[n]);
      Assoc(OldPart(ht, steps), rest, s);
      rest := rest + s;
    }
  }

  lemma CoversSnoc(ht: map<Str, Kv>, steps: seq<Step>, s: Step, k: Str)
    ensures Covers(ht, steps + [s], k) <==> Covers(ht, steps, k) || (k == s.key && k in ht && ht[k].value.Some?)
  {
    var all := steps + [s];
    assert all[|steps|] == s;
    if Covers(ht, steps, k) {
      var i :| 0 <= i < |steps| && steps[i].key == k;
      assert all[i].key == k;
    }
  }

  lemma NewPartSnoc(ht: map<Str, Kv>, order: seq<Str>, k: Str)
    ensures NewPart(ht, order + [k]) == NewPart(ht, order) + [EntryRec(ht, k)]
  {
    assert (order + [k])[..|order|] == order;
  }

  lemma {:induction false} NewPartMore(ht: map<Str, Kv>, order: seq<Str>, more: seq<Str>) returns (rest: seq<Rec>)
    ensures NewPart(ht, order + more) == NewPart(ht, order) + rest
  {
    hide EntryRec;
    if more == [] {
      rest := [];
      assert order + more == order;
    } else {
      var n := |more| - 1;
      assert order + more == order + more[..n] + [more[n]];
      rest := NewPartMore(ht, order, more[..n]);
      NewPartSnoc(ht, order + more[..n], more[n]);
      Assoc(NewPart(ht, order), rest, [EntryRec(ht, more[n])]);
      rest := rest + [EntryRec(ht, more[n])];
    }
  }

  /** Some order of a set. */
  lemma {:induction false} Ordered(ks: set<Str>) returns (order: seq<Str>)
    ensures NoDup(order) && forall k :: k in order <==> k in ks
  {
    order := [];
    if ks != {} {
      var k :| k in ks;
      var rest := Ordered(ks - {k});
      order := rest + [k];
    }
  }

  /** The database path. Renaming a file over it is one step: the path shows the
      old content or the new one, never a mixture. */
  class DbPath {
    const sys: System
    var db: Option<seq<byte>>
    /** Everything the path has ever shown. */
    ghost var shown: seq<Option<seq<byte>>>

    constructor (db: Option<seq<byte>>, sys: System)
      ensures this.db == db && shown == [db] && this.sys == sys
    {
      this.sys, this.db, shown := sys, db, [db];
    }

    /** `sdb_file_replace`, which may fail and then changes nothing. */
    method Replace(content: seq<byte>) returns (ok: bool)
      modifies this, sys
      ensures sys.faults == old(sys.faults) + if ok then 0 else 1
      ensures ok ==> db == Some(content) && shown == old(shown) + [Some(content)]
      ensures !ok ==> db == old(db) && shown == old(shown)
    {
      ok := sys.Try();
      if ok {
        db, shown := Some(content), shown + [Some(content)];
      }
    }
  }

  class Sdb {
    const hash: Str -> u32
    const path: DbPath
    var ht: map<Str, Kv>
    /** The mapped database file; None while no file is open. */
    var image: Option<seq<byte>>

    ghost predicate Valid()
      reads this
    {
      && (image.Some? ==> |image.value| < TWO32)
      && forall k :: k in ht && ht[k].value.Some? ==> IsCStr(ht[k].value.value)
    }

    constructor (hash: Str -> u32, path: DbPath)
      ensures Valid() && this.hash == hash && this.path == path && ht == map[] && image == None
    {
      this.hash, this.path, ht, image := hash, path, map[], None;
    }

    /** `sdb_set`. */
    method Set(key: Str, val: Str, cas: nat) returns (r: nat)
      requires Valid() && IsCStr(val)
      modifies `ht
      ensures Valid() && (ht, r) == SetStep(old(ht), image, hash, key, val, cas)
    {
      hide Lookup;
      if |key| >= KSZ || |val| >= VSZ {
        return 0;
      }
      if key in ht && ht[key].value.Some? {
        var kv := ht[key];
        if image.Some? && Lookup(image.value, hash(key), key) == NotFound {
          ht := ht - {key};
        } else {
          if cas != 0 && kv.cas != cas {
            return 0;
          }
          if kv.value.value == val {
            return kv.cas;
          }
          ht := ht[key := Kv(Some(val), kv.cas + 1, kv.expire)];
        }
        return kv.cas + 1;
      }
      ht := ht[key := Kv(if val == [] then None else Some(val), 2, 0)];
      return 2;
    }

    /** `sdb_foreach_cdb` with the callbacks of a sync: every record of the old
        file, or the memory entry that covers it, goes into the new file. */
    method MergeOld(m: CdbMake) returns (ok: bool, done: set<Str>)
      requires Valid() && m.Valid() && m.recs == []
      modifies m, m.count, m.b, m.b.x, m.b.file, m.b.file.sys
      ensures old(Faults(m)) <= Faults(m)
      ensures ok <==> Faults(m) == old(Faults(m)) && Valued(ht, Walk(image)) && Addable(OldPart(ht, Walk(image)))
      ensures ok ==> m.Valid() && m.recs == OldPart(ht, Walk(image)) && Planned(ht, done, Walked(Walk(image)), m.recs)
      ensures ok ==> forall k :: k in done <==> Covers(ht, Walk(image), k)
    {
      hide Planned, Dump, DumpNext, Walked, CdbMake.Valid, Storable, Covers, OldPart, FromStep, Addable, Valued;
      ok, done := true, {};
      PlannedNone(ht);
      WalkStart(ht);
      if image.None? {
        return;
      }
      var file, pos := image.value, HEADER;
      ghost var taken: seq<Step> := [];
      while true
        invariant m.Valid() && Planned(ht, done, Walked(taken), m.recs) && m.recs == OldPart(ht, taken)
        invariant Addable(m.recs) && Valued(ht, taken) && (forall k :: k in done <==> Covers(ht, taken, k))
        invariant Walk(image) == taken + Dump(file, pos) && Faults(m) == old(Faults(m))
        invariant pos <= |file| || pos == HEADER
        decreases |file| - pos
      {
        DumpOne(file, pos);
        var n := DumpNext(file, pos);
        if n.None? {
          assert taken + [] == taken;
          return;
        }
        var s := n.value;
        Assoc(taken, [s], Dump(file, s.next));
        ghost var rest := OldPartMore(ht, taken + [s], Dump(file, s.next));
        StepPlan(ht, done, taken, s, m.recs, Dump(file, s.next));
        if s.key in ht {
          if ht[s.key].value.Some? && s.key !in done {
            ok := PutRec(m, s.key, ht[s.key].value.value, rest);
            if !ok {
              return;
            }
            done := done + {s.key};
          }
        } else {
          if s.value.None? {
            ok := false;
            return;
          }
          StepValue(file, pos);
          ok := PutRec(m, s.key, s.value.value, rest);
          if !ok {
            return;
          }
        }
        taken := taken + [s];
        pos := s.next;
      }
    }

    /** The second loop of `sdb_sync`: memory entries that are not in the old file. */
    method MergeNew(m: CdbMake, before: set<Str>, ghost seen: seq<Rec>)
      returns (ok: bool, done: set<Str>, ghost order: seq<Str>)
      requires Valid() && m.Valid() && Planned(ht, before, seen, m.recs) && Addable(m.recs)
      modifies m, m.count, m.b, m.b.x, m.b.file, m.b.file.sys
      ensures old(Faults(m)) <= Faults(m)
      ensures NoDup(order) && forall k :: k in order <==> k in ht && Persists(ht[k]) && k !in before
      ensures ok <==> Faults(m) == old(Faults(m)) && Addable(old(m.recs) + NewPart(ht, order))
      ensures ok ==> m.Valid() && m.recs == old(m.recs) + NewPart(ht, order) && Planned(ht, done, seen, m.recs)
      ensures ok ==> forall k :: k in done <==> k in before || k in order
    {
      hide Planned, CdbMake.Valid, Addable, NewPart, NoDup;
      ok, done, order := true, before, [];
      OrderNone(ht, m.recs);
      var todo := ht.Keys;
      while todo != {}
        invariant todo <= ht.Keys && NoDup(order) && Faults(m) == old(Faults(m))
        invariant forall k :: k in order <==> k in ht && k !in todo && Persists(ht[k]) && k !in before
        invariant forall k :: k in done <==> k in before || k in order
        invariant m.Valid() && Planned(ht, done, seen, m.recs) && Addable(m.recs)
        invariant m.recs == old(m.recs) + NewPart(ht, order)
        decreases todo
      {
        var k :| k in todo;
        todo := todo - {k};
        if Persists(ht[k]) && k !in done {
          PlannedDirty(ht, done, seen, m.recs, k);
          ghost var full, rest := RestOrder(ht, old(m.recs), order, k, todo, before);
          ok := PutRec(m, k, ht[k].value.value, rest);
          if !ok {
            order := full;
            return;
          }
          done, order := done + {k}, order + [k];
        }
      }
    }

    /** `sdb_sync`. It succeeds exactly when no step of it fails, every walked record can
        be copied and the planned records fit the format. On success the path holds a new
        complete database of the planned records, the entries that went out have left
        memory, and reading memory over the file gives every key the value that memory
        over the walked old file gave, which is what a reader saw before if the file was
        clean; keys that were not in memory keep all their records. On failure memory is
        untouched; the path shows the old content, or the new complete database if only
        reopening it failed. */
    method Sync() returns (ok: bool, ghost recs: seq<Rec>, ghost order: seq<Str>)
      requires Valid()
      modifies `ht, `image, path, path.sys
      ensures Plan(old(ht), Walk(old(image)), order, recs)
      ensures old(path.sys.faults) <= path.sys.faults
      ensures ok <==> path.sys.faults == old(path.sys.faults) && Valued(old(ht), Walk(old(image)))
                      && Buildable(recs, hash)
      ensures ok ==> Valid() && path.db.Some? && image == path.db && IsCdb(path.db.value, recs, hash)
      ensures ok ==> forall k :: k in ht <==> k in old(ht) && !Leaves(old(ht), Walk(old(image)), k)
      ensures ok ==> forall k :: k in ht ==> ht[k] == old(ht)[k] && !Persists(ht[k])
      ensures ok ==> forall k :: Get(ht, image, hash, k) == Merged(old(ht), old(image), k)
      ensures ok ==> forall rs, k :: Clean(old(image), rs, hash)
                       ==> Get(ht, image, hash, k) == Get(old(ht), old(image), hash, k)
      ensures ok ==> forall k :: k !in old(ht) ==> Datas(recs, k) == Datas(Walked(Walk(old(image))), k)
      ensures !ok ==> ht == old(ht) && (image == old(image) || image == None || image == path.db)
      ensures || (!ok && path.shown == old(path.shown) && path.db == old(path.db))
              || (path.db.Some? && path.shown == old(path.shown) + [path.db] && IsCdb(path.db.value, recs, hash))
    {
      hide Planned, IsCdb, Get, Walked, Walk, FirstData, Datas, Clean, Merged, Plan, Valued, Buildable, Leaves,
           Persists;
      var content, done;
      ok, content, done, recs, order := WriteNew();
      if !ok {
        return;
      }
      ok := Swap(content, recs);
      if !ok {
        return;
      }
      SyncShows(ht, done, old(image), recs, content, hash);
      LeftBehind(ht, Walk(old(image)), done);
      ht := ht - done;
      Sized(content, recs, hash);
    }

    /** The new file, up to its replacing the old one. */
    method WriteNew()
      returns (ok: bool, content: seq<byte>, done: set<Str>, ghost recs: seq<Rec>, ghost order: seq<Str>)
      requires Valid()
      modifies path.sys
      ensures Plan(ht, Walk(image), order, recs) && old(path.sys.faults) <= path.sys.faults
      ensures ok <==> path.sys.faults == old(path.sys.faults) && Valued(ht, Walk(image)) && Buildable(recs, hash)
      ensures ok ==> IsCdb(content, recs, hash) && Planned(ht, done, Walked(Walk(image)), recs)
      ensures ok ==> forall k :: k in done <==> Leaves(ht, Walk(image), k)
    {
      hide Planned, CdbMake.Valid, IsCdb, Walked, Walk, Datas, Plan, Valued, Addable, Buildable, OldPart, NewPart,
           Covers, NoDup, ScratchFits, Hps;
      recs, order := AnyPlan(ht, Walk(image));
      content, done := [], {};
      ok := path.sys.Try();
      if !ok {
        return;
      }
      var tmp := new OutFile(path.sys);
      ok := tmp.Seek(HEADER);
      if !ok {
        return;
      }
      var m := new CdbMake(hash, tmp);
      ok, done := MergeOld(m);
      if !ok {
        PlanFails(ht, Walk(image), order, recs, hash);
        return;
      }
      ghost var walked := m.recs;
      ok, done, order := MergeNew(m, done, Walked(Walk(image)));
      recs := walked + NewPart(ht, order);
      PlanMade(ht, Walk(image), order, recs);
      BuildableParts(recs, hash);
      if !ok {
        return;
      }
      ok := m.Finish();
      content := tmp.data;
      LeavesAre(ht, Walk(image), order, done);
    }

    /** The end of `sdb_disk_finish`: close, replace, reopen. */
    method Swap(content: seq<byte>, ghost recs: seq<Rec>) returns (ok: bool)
      requires IsCdb(content, recs, hash)
      modifies `image, path, path.sys
      ensures old(path.sys.faults) <= path.sys.faults && (ok <==> path.sys.faults == old(path.sys.faults))
      ensures ok ==> path.db == image == Some(content)
      ensures image == None || image == path.db
      ensures || (!ok && path.shown == old(path.shown) && path.db == old(path.db))
              || (path.db == Some(content) && path.shown == old(path.shown) + [Some(content)])
    {
      image := None;
      ok := path.Replace(content);
      var reopened := path.sys.Try();
      if reopened {
        image := path.db;
      }
      ok := ok && reopened;
    }
  }

  /** Failed calls, as a writer sees them. */
  ghost function Faults(m: CdbMake): nat
    reads m.b.file.sys
  {
    m.b.file.sys.faults
  }

  lemma PosIs(m: CdbMake)
    requires m.Valid()
    ensures m.pos == RecPos(m.recs, |m.recs|)
  {
  }

  /** One more record, which goes in exactly when it can be added and no call fails; when
      it cannot, nothing longer can. */
  method PutRec(m: CdbMake, key: Str, data: Str, ghost rest: seq<Rec>) returns (ok: bool)
    requires m.Valid() && Addable(m.recs)
    modifies m, m.count, m.b, m.b.x, m.b.file, m.b.file.sys
    ensures ok ==> m.Valid() && m.recs == old(m.recs) + [Rec(key, data)] && Addable(m.recs)
    ensures old(Faults(m)) <= Faults(m) && (ok ==> Faults(m) == old(Faults(m)))
    ensures !ok && Faults(m) == old(Faults(m)) ==> !Addable(old(m.recs) + [Rec(key, data)] + rest)
  {
    hide CdbMake.Valid, Addable, Storable, RecSize, RecPos;
    var r := Rec(key, data);
    PosIs(m);
    AddableSnoc(m.recs, r);
    if Addable(m.recs + [r] + rest) {
      AddablePrefix(m.recs + [r], rest);
    }
    ok := m.Add(key, data);
  }

  /** The entries that a sync moves from memory to the file: those with a value whose key
      the old file has, and those with a non-empty value and no expiry. */
  ghost predicate Leaves(ht: map<Str, Kv>, steps: seq<Step>, k: Str) {
    && k in ht && ht[k].value.Some?
    && ((exists i :: 0 <= i < |steps| && steps[i].key == k) || (ht[k].value.value != [] && ht[k].expire == 0))
  }

  lemma LeavesAre(ht: map<Str, Kv>, steps: seq<Step>, order: seq<Str>, done: set<Str>)
    requires forall k :: k in order <==> Fresh(ht, steps, k)
    requires forall k :: k in done <==> Covers(ht, steps, k) || k in order
    ensures forall k :: k in done <==> Leaves(ht, steps, k)
  {
  }

  lemma LeftBehind(ht: map<Str, Kv>, steps: seq<Step>, done: set<Str>)
    requires forall k :: k in done <==> Leaves(ht, steps, k)
    ensures forall k :: k in ht && k !in done ==> !Persists(ht[k])
  {
    forall k | k in ht && Persists(ht[k])
      ensures k in done
    {
      assert Leaves(ht, steps, k);
    }
  }

  lemma WalkStart(ht: map<Str, Kv>)
    ensures Walked([]) == [] && OldPart(ht, []) == [] && Addable([]) && Valued(ht, [])
    ensures forall k :: !Covers(ht, [], k)
  {
  }

  lemma OrderNone(ht: map<Str, Kv>, recs: seq<Rec>)
    ensures NoDup([]) && recs + NewPart(ht, []) == recs
  {
  }

  /** What one step of the walk adds to the plan. */
  lemma StepPlan(ht: map<Str, Kv>, done: set<Str>, taken: seq<Step>, s: Step, out: seq<Rec>, more: seq<Step>)
    requires Planned(ht, done, Walked(taken), out) && out == OldPart(ht, taken) && Valued(ht, taken)
    requires forall k :: k in done <==> Covers(ht, taken, k)
    requires forall k :: k in ht && ht[k].value.Some? ==> IsCStr(ht[k].value.value)
    ensures Valued(ht, taken + [s]) <==> s.key in ht || s.value.Some?
    ensures Valued(ht, taken + [s] + more) ==> s.key in ht || s.value.Some?
    ensures var put := s.key in ht && ht[s.key].value.Some? && s.key !in done;
            var now := if put then done + {s.key} else done;
            && (forall k :: k in now <==> Covers(ht, taken + [s], k))
            && (put ==> OldPart(ht, taken + [s]) == out + [Rec(s.key, ht[s.key].value.value)])
            && (s.key in ht && !put ==> OldPart(ht, taken + [s]) == out)
            && (s.key !in ht && s.value.Some? ==> OldPart(ht, taken + [s]) == out + [Rec(s.key, s.value.value)])
            && (s.key in ht || (s.value.Some? && IsCStr(s.value.value)) ==>
                  Planned(ht, now, Walked(taken + [s]), OldPart(ht, taken + [s])))
  {
    hide Planned, OldPart, Covers, Walked;
    OldPartSnoc(ht, taken, s);
    WalkedSnoc(taken, s);
    forall k
      ensures Covers(ht, taken + [s], k) <==> Covers(ht, taken, k) || (k == s.key && k in ht && ht[k].value.Some?)
    {
      CoversSnoc(ht, taken, s, k);
    }
    var all := taken + [s] + more;
    assert all[|taken|] == s && (taken + [s])[|taken|] == s;
    assert out + [] == out;
    var r := Rec(s.key, if s.value.Some? then s.value.value else []);
    if s.key in ht {
      PlannedSkip(ht, done, Walked(taken), out, r);
      if ht[s.key].value.Some? && s.key !in done {
        PlannedDirty(ht, done, Walked(taken + [s]), out, s.key);
      }
    } else if s.value.Some? && IsCStr(s.value.value) {
      PlannedCopy(ht, done, Walked(taken), out, r);
    }
  }

  /** The order of the entries not yet written, when writing `k` fails. */
  lemma RestOrder(ht: map<Str, Kv>, out: seq<Rec>, order: seq<Str>, k: Str, todo: set<Str>, before: set<Str>)
    returns (full: seq<Str>, rest: seq<Rec>)
    requires NoDup(order) && k in ht && Persists(ht[k]) && k !in todo && k !in before && k !in order && todo <= ht.Keys
    requires forall x :: x in order <==> x in ht && x !in todo && x != k && Persists(ht[x]) && x !in before
    ensures NoDup(full) && forall x :: x in full <==> x in ht && Persists(ht[x]) && x !in before
    ensures out + NewPart(ht, full) == out + NewPart(ht, order) + [Rec(k, ht[k].value.value)] + rest
    ensures out + NewPart(ht, order + [k]) == out + NewPart(ht, order) + [Rec(k, ht[k].value.value)]
    ensures NoDup(order + [k])
  {
    hide NewPart;
    var others := set x | x in todo && Persists(ht[x]) && x !in before;
    var tail := Ordered(others);
    full := order + [k] + tail;
    forall x
      ensures x in full <==> x in ht && Persists(ht[x]) && x !in before
    {
      assert x in full <==> x in order || x == k || x in tail;
    }
    assert forall i :: 0 <= i < |tail| ==> tail[i] in others;
    assert forall i :: 0 <= i < |order| ==> order[i] in order;
    rest := NewPartMore(ht, order + [k], tail);
    NewPartSnoc(ht, order, k);
    var r := [Rec(k, ht[k].value.value)];
    Assoc(out, NewPart(ht, order) + r, rest);
    Assoc(out, NewPart(ht, order), r);
  }

  /** There is always a plan. */
  lemma AnyPlan(ht: map<Str, Kv>, steps: seq<Step>) returns (recs: seq<Rec>, order: seq<Str>)
    ensures Plan(ht, steps, order, recs)
  {
    hide OldPart, NewPart, Covers;
    order := Ordered(set k | k in ht && Fresh(ht, steps, k));
    assert forall k :: k in order <==> Fresh(ht, steps, k);
    recs := OldPart(ht, steps) + NewPart(ht, order);
  }

  lemma PlanMade(ht: map<Str, Kv>, steps: seq<Step>, order: seq<Str>, recs: seq<Rec>)
    requires NoDup(order) && forall k :: k in order <==> k in ht && Persists(ht[k]) && !Covers(ht, steps, k)
    requires recs == OldPart(ht, steps) + NewPart(ht, order)
    ensures Plan(ht, steps, order, recs)
  {
    hide OldPart, NewPart, Covers;
  }

  lemma PlanFails(ht: map<Str, Kv>, steps: seq<Step>, order: seq<Str>, recs: seq<Rec>, hash: Str -> u32)
    requires Plan(ht, steps, order, recs)
    ensures Buildable(recs, hash) ==> Addable(OldPart(ht, steps))
  {
    hide OldPart, NewPart, Covers, NoDup, ScratchFits, AllStorable, Hps, RecPos;
    if Buildable(recs, hash) {
      AddablePrefix(OldPart(ht, steps), NewPart(ht, order));
    }
  }

  lemma BuildableParts(recs: seq<Rec>, hash: Str -> u32)
    ensures Buildable(recs, hash) <==> Addable(recs) && RecPos(recs, |recs|) + 16 * |recs| < TWO32
                                       && ScratchFits(Hps(recs, hash))
  {
    hide ScratchFits, AllStorable, Hps, RecPos;
  }

  /** What a sync moves from memory to disk. */
  predicate Persists(kv: Kv) {
    kv.value.Some? && kv.value.value != [] && kv.expire == 0
  }

  lemma StepValue(file: seq<byte>, pos: nat)
    requires DumpNext(file, pos).Some? && DumpNext(file, pos).value.value.Some?
    ensures IsCStr(DumpNext(file, pos).value.value.value)
  {
  }

  /** A sync of a clean database changes nothing a reader can see. */
  lemma SyncKeepsVisible(ht: map<Str, Kv>, image: Option<seq<byte>>, recs: seq<Rec>, hash: Str -> u32, k: Str)
    requires Clean(image, recs, hash)
    ensures Merged(ht, image, k) == Get(ht, image, hash, k)
  {
    hide Clean, DiskGet, Datas, Walked, Walk;
    CleanGet(image, recs, hash, k);
  }

  /** What the new file and the remaining memory show after a sync. */
  lemma SyncShows(ht: map<Str, Kv>, done: set<Str>, image: Option<seq<byte>>, recs: seq<Rec>, file: seq<byte>,
                  hash: Str -> u32)
    requires Planned(ht, done, Walked(Walk(image)), recs) && IsCdb(file, recs, hash)
    ensures forall k :: Get(ht - done, Some(file), hash, k) == Merged(ht, image, k)
    ensures forall rs, k :: Clean(image, rs, hash) ==> Get(ht - done, Some(file), hash, k) == Get(ht, image, hash, k)
    ensures forall k :: k !in ht ==> Datas(recs, k) == Datas(Walked(Walk(image)), k)
  {
    hide IsCdb, Get, Walked, Walk, FirstData, Datas, Clean;
    forall k
      ensures Get(ht - done, Some(file), hash, k) == Merged(ht, image, k)
    {
      PlannedVisible(ht, done, Walked(Walk(image)), recs, file, hash, k);
    }
    forall rs, k | Clean(image, rs, hash)
      ensures Merged(ht, image, k) == Get(ht, image, hash, k)
    {
      SyncKeepsVisible(ht, image, rs, hash, k);
    }
  }

  // --- setting ---

  /** The guard of the branch that deletes: a memory value, an open file, and a
      search that ends without the key. */
  predicate Forgets(ht: map<Str, Kv>, image: Option<seq<byte>>, hash: Str -> u32, key: Str) {
    && key in ht && ht[key].value.Some?
    && image.Some? && Lookup(image.value, hash(key), key) == NotFound
  }

  /** `sdb_set_internal` for a value the caller keeps: the new table, and the new
      cas or 0 on refusal. */
  function SetStep(ht: map<Str, Kv>, image: Option<seq<byte>>, hash: Str -> u32, key: Str, val: Str,
                   cas: nat): (map<Str, Kv>, nat) {
    if |key| >= KSZ || |val| >= VSZ then (ht, 0)
    else if key in ht && ht[key].value.Some? then
      var kv := ht[key];
      if Forgets(ht, image, hash, key) then (ht - {key}, kv.cas + 1)
      else if cas != 0 && kv.cas != cas then (ht, 0)
      else if kv.value.value == val then (ht, kv.cas)
      else (ht[key := Kv(Some(val), kv.cas + 1, kv.expire)], kv.cas + 1)
    else (ht[key := Kv(if val == [] then None else Some(val), 2, 0)], 2)
  }

  /** A set is seen by the next read exactly when it does not take the deleting
      branch (or sets the empty value), and no other key notices. */
  lemma ReadAfterWrite(ht: map<Str, Kv>, image: Option<seq<byte>>, hash: Str -> u32, key: Str, val: Str, cas: nat)
    ensures var (ht', r) := SetStep(ht, image, hash, key, val, cas);
            && (r != 0 ==> (Get(ht', image, hash, key) == NonEmpty(Some(val))
                            <==> !Forgets(ht, image, hash, key) || val == []))
            && (r == 0 ==> ht' == ht)
            && forall k :: k != key ==> Get(ht', image, hash, k) == Get(ht, image, hash, k)
  {
    hide Lookup, CStr;
  }

  /** An open file that does not hold the key. */
  predicate Lacks(image: Option<seq<byte>>, hash: Str -> u32, k: Str) {
    image.Some? && Lookup(image.value, hash(k), k) == NotFound
  }

  /** Every entry has a compare-and-swap counter, 0 being the mark of refusal. */
  ghost predicate Counted(ht: map<Str, Kv>) {
    forall k :: k in ht ==> ht[k].cas > 0
  }

  /** When a set is refused: for an oversized key or value, or when it names a counter and
      the stored value has another one; never over a file that lacks the key, where the
      value is dropped instead. All other sets leave the entry with the counter that they
      return, which is larger exactly when the value has changed; the expiry is kept and no
      other key is touched. */
  lemma SetCounts(ht: map<Str, Kv>, image: Option<seq<byte>>, hash: Str -> u32, key: Str, val: Str, cas: nat)
    requires Counted(ht)
    ensures var (now, r) := SetStep(ht, image, hash, key, val, cas);
            var stored := key in ht && ht[key].value.Some?;
            && Counted(now) && (forall k :: k != key ==> (k in now <==> k in ht) && (k in ht ==> now[k] == ht[k]))
            && (r == 0 <==> |key| >= 255 || |val| >= 16777215
                            || (stored && !Lacks(image, hash, key) && cas != 0 && cas != ht[key].cas))
            && (r == 0 ==> now == ht)
            && (r != 0 && stored && Lacks(image, hash, key) ==> key !in now && r == ht[key].cas + 1)
            && (r != 0 && !(stored && Lacks(image, hash, key)) ==>
                  key in now && now[key].cas == r && NonEmpty(now[key].value) == NonEmpty(Some(val)))
            && (r != 0 && stored && !Lacks(image, hash, key) ==>
                  && now[key].value == Some(val) && now[key].expire == ht[key].expire
                  && (ht[key].value == Some(val) ==> r == ht[key].cas)
                  && (ht[key].value != Some(val) ==> r == ht[key].cas + 1))
            && (r != 0 && !stored ==> now[key] == Kv(if val == [] then None else Some(val), 2, 0))
  {
    hide Lookup;
  }

  /** After a set of a key has returned `c`, and sets of other keys in between, the next
      set of the key is refused if and only if it is oversized or names another counter
      than `c` while there is a value. */
  lemma LastCounter(ht: map<Str, Kv>, image: Option<seq<byte>>, hash: Str -> u32, key: Str, a: Str, x: nat,
                    between: map<Str, Kv>, b: Str, y: nat)
    requires Counted(ht) && Counted(between) && !Lacks(image, hash, key)
    requires var (one, c) := SetStep(ht, image, hash, key, a, x); c != 0 && key in between && between[key] == one[key]
    ensures var (one, c) := SetStep(ht, image, hash, key, a, x);
            var (_, d) := SetStep(between, image, hash, key, b, y);
            d == 0 <==> |key| >= 255 || |b| >= 16777215 || (one[key].value.Some? && y != 0 && y != c)
  {
    hide SetStep, Lacks;
    SetCounts(ht, image, hash, key, a, x);
    SetCounts(between, image, hash, key, b, y);
  }

  /** Compare-and-swap: of two sets that name the counter of the same earlier set, the
      first one changes the value and the second one is refused. */
  lemma SwapOnce(ht: map<Str, Kv>, image: Option<seq<byte>>, hash: Str -> u32, key: Str, a: Str, x: nat, b: Str, e: Str)
    requires Counted(ht) && !Lacks(image, hash, key) && |b| < 16777215
    requires var (one, c) := SetStep(ht, image, hash, key, a, x);
             c != 0 && one[key].value.Some? && one[key].value != Some(b)
    ensures var (one, c) := SetStep(ht, image, hash, key, a, x);
            var (two, d) := SetStep(one, image, hash, key, b, c);
            && d == c + 1 && two[key].value == Some(b) && two[key].expire == one[key].expire
            && SetStep(two, image, hash, key, e, c) == (two, 0)
  {
    hide SetStep, Lacks;
    SetCounts(ht, image, hash, key, a, x);
    var (one, c) := SetStep(ht, image, hash, key, a, x);
    SetCounts(one, image, hash, key, b, c);
    var (two, d) := SetStep(one, image, hash, key, b, c);
    SetCounts(two, image, hash, key, e, c);
  }

  /** Over an empty database file the second of two sets makes the key vanish. */
  lemma SecondSetForgets(file: seq<byte>, hash: Str -> u32, key: Str, a: Str, b: Str)
    requires IsCdb(file, [], hash) && |key| < KSZ && 0 < |a| < VSZ && |b| < VSZ
    ensures var (one, _) := SetStep(map[], Some(file), hash, key, a, 0);
            var (two, r) := SetStep(one, Some(file), hash, key, b, 0);
            r != 0 && Get(one, Some(file), hash, key) == Some(a) && Get(two, Some(file), hash, key) == None
  {
    hide Lookup, IsCdb, CStr;
    LookupCorrect(file, [], hash, key);
  }
}
