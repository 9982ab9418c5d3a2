/**
 src/sdb.c and src/journal.c: crashes around the journal. Between the rename of a sync
 and the clearing of the journal, the next start replays the whole journal over the
 file that already holds its effects, and shows the same entries. While the journal is
 loaded its sets are logged once more, and the next start sees some of them twice.
 */
module Recovery {
  import opened Bytes
  import opened Options
  import opened CdbFormat
  import opened CdbReader
  import opened DiskWalk
  import opened Store
  import opened Journal

  function EntryOf(ht: map<Str, Kv>, k: Str): Option<Kv> {
    if k in ht then Some(ht[k]) else None
  }

  /** What one set does to the entry of its key. */
  function KeyStep(e: Option<Kv>, lacks: bool, val: Str): Option<Kv> {
    if e.Some? && e.value.value.Some? then
      if lacks then None
      else if e.value.value.value == val then e
      else Some(Kv(Some(val), e.value.cas + 1, e.value.expire))
    else Some(Kv(if val == [] then None else Some(val), 2, 0))
  }

  function KeyRun(e: Option<Kv>, lacks: bool, vals: seq<Str>): Option<Kv> {
    if vals == [] then e else KeyStep(KeyRun(e, lacks, vals[..|vals| - 1]), lacks, vals[|vals| - 1])
  }

  /** The values set under a key, in order. */
  function ValuesOf(sets: seq<(Str, Str)>, k: Str): seq<Str> {
    if sets == [] then []
    else (if sets[0].0 == k then [sets[0].1] else []) + ValuesOf(sets[1..], k)
  }

  lemma SetToEntry(ht: map<Str, Kv>, image: Option<seq<byte>>, hash: Str -> u32, key: Str, val: Str, k: Str)
    requires |key| < KSZ && |val| < VSZ
    ensures EntryOf(SetTo(ht, image, hash, key, val), k)
            == if k == key then KeyStep(EntryOf(ht, k), Lacks(image, hash, k), val) else EntryOf(ht, k)
  {
    hide Lookup;
  }

  lemma {:induction false} KeyRunCons(e: Option<Kv>, lacks: bool, v: Str, vals: seq<Str>)
    ensures KeyRun(e, lacks, [v] + vals) == KeyRun(KeyStep(e, lacks, v), lacks, vals)
  {
    var all := [v] + vals;
    if vals == [] {
      assert all == [v] && all[..0] == [];
    } else {
      KeyRunCons(e, lacks, v, vals[..|vals| - 1]);
      assert all[..|all| - 1] == [v] + vals[..|vals| - 1];
    }
  }

  /** A key sees only the sets of its own. */
  lemma {:induction false} SetAllEntry(ht: map<Str, Kv>, image: Option<seq<byte>>, hash: Str -> u32,
                                       sets: seq<(Str, Str)>, k: Str)
    requires forall i :: 0 <= i < |sets| ==> Loggable(sets[i].0, sets[i].1)
    ensures EntryOf(SetAll(ht, image, hash, sets), k)
            == KeyRun(EntryOf(ht, k), Lacks(image, hash, k), ValuesOf(sets, k))
    decreases |sets|
  {
    hide SetTo, KeyStep, EntryOf, Lacks;
    if sets != [] {
      var (key, val) := sets[0];
      assert Loggable(sets[0].0, sets[0].1);
      SetToEntry(ht, image, hash, key, val, k);
      SetAllEntry(SetTo(ht, image, hash, key, val), image, hash, sets[1..], k);
      if key == k {
        KeyRunCons(EntryOf(ht, k), Lacks(image, hash, k), val, ValuesOf(sets[1..], k));
      } else {
        assert [] + ValuesOf(sets[1..], k) == ValuesOf(sets[1..], k);
      }
    }
  }

  lemma {:induction false} NeverExpires(lacks: bool, vals: seq<Str>)
    ensures var e := KeyRun(None, lacks, vals); e.Some? ==> e.value.expire == 0
  {
    if vals != [] {
      NeverExpires(lacks, vals[..|vals| - 1]);
    }
  }

  /** After at least one set the entry shows the last value, or an open file without the
      key has made it vanish. */
  lemma RunEnds(lacks: bool, vals: seq<Str>)
    requires vals != []
    ensures var e := KeyRun(None, lacks, vals);
            if e.Some? then NonEmpty(e.value.value) == NonEmpty(Some(vals[|vals| - 1])) else lacks
  {
    hide KeyRun;
    RunLast(None, lacks, vals);
  }

  lemma RunLast(e: Option<Kv>, lacks: bool, vals: seq<Str>)
    requires vals != []
    ensures KeyRun(e, lacks, vals) == KeyStep(KeyRun(e, lacks, vals[..|vals| - 1]), lacks, vals[|vals| - 1])
  {
  }

  /** A complete file lacks exactly the keys without records. */
  lemma LacksIs(file: seq<byte>, recs: seq<Rec>, hash: Str -> u32, k: Str)
    requires IsCdb(file, recs, hash)
    ensures Lacks(Some(file), hash, k) <==> Datas(recs, k) == []
    ensures Lacks(Some(file), hash, k) ==> DiskGet(Some(file), hash, k) == None
  {
    hide IsCdb, Lookup, Datas, CStr;
    LookupCorrect(file, recs, hash, k);
    DatasFirst(recs, k);
  }

  /** The walk of a clean file sees its records. */
  lemma CleanWalk(image: Option<seq<byte>>, recs: seq<Rec>, hash: Str -> u32, k: Str)
    requires Clean(image, recs, hash) && Lacks(image, hash, k)
    ensures Datas(Walked(Walk(image)), k) == [] && DiskGet(image, hash, k) == None
  {
    hide IsCdb, Stops, Lookup, Datas, CStr, Dump;
    LacksIs(image.value, recs, hash, k);
    WalkCorrect(image.value, recs, hash);
    WalkedSteps(recs, 0);
    assert recs[0..] == recs;
  }

  /** What a sync promises about one key, with the memory it leaves. */
  ghost predicate Synced(ht: map<Str, Kv>, image: Option<seq<byte>>, rest: map<Str, Kv>, file: seq<byte>,
                         recs: seq<Rec>, hash: Str -> u32, k: Str) {
    && IsCdb(file, recs, hash)
    && (k in rest ==> k in ht && rest[k] == ht[k] && !Persists(rest[k]))
    && Get(rest, Some(file), hash, k) == Get(ht, image, hash, k)
    && (k !in ht ==> Datas(recs, k) == Datas(Walked(Walk(image)), k))
  }

  /** Replaying the whole journal over the synced file, from an empty table, shows every
      key as it was before the sync. */
  lemma ReplayAfterSync(sets: seq<(Str, Str)>, image: Option<seq<byte>>, olds: seq<Rec>, rest: map<Str, Kv>,
                        file: seq<byte>, recs: seq<Rec>, hash: Str -> u32, k: Str)
    requires forall i :: 0 <= i < |sets| ==> Loggable(sets[i].0, sets[i].1)
    requires Clean(image, olds, hash) && Synced(SetAll(map[], image, hash, sets), image, rest, file, recs, hash, k)
    ensures Get(SetAll(map[], Some(file), hash, sets), Some(file), hash, k)
            == Get(SetAll(map[], image, hash, sets), image, hash, k)
  {
    hide IsCdb, Clean, SetAll, KeyRun, Lacks, DiskGet, Datas, Walked, Walk, ValuesOf, Loggable;
    var ht, re := SetAll(map[], image, hash, sets), SetAll(map[], Some(file), hash, sets);
    var vals := ValuesOf(sets, k);
    SetAllEntry(map[], image, hash, sets, k);
    SetAllEntry(map[], Some(file), hash, sets, k);
    LacksIs(file, recs, hash, k);
    if vals == [] {
      RunNone(Lacks(image, hash, k));
      RunNone(Lacks(Some(file), hash, k));
    } else {
      RunEnds(Lacks(image, hash, k), vals);
      RunEnds(Lacks(Some(file), hash, k), vals);
      NeverExpires(Lacks(image, hash, k), vals);
      if k !in ht {
        CleanWalk(image, olds, hash, k);
      }
    }
  }

  lemma RunNone(lacks: bool)
    ensures KeyRun(None, lacks, []) == None
  {
  }

  /** The run: a table filled by logged sets, a successful sync, a crash before the
      journal is cleared, and the next start. */
  method SyncThenCrash(db: Sdb, sets: seq<(Str, Str)>, ghost olds: seq<Rec>)
    returns (ok: bool, ht: map<Str, Kv>, ghost recs: seq<Rec>, ghost order: seq<Str>)
    requires db.Valid() && Clean(db.image, olds, db.hash)
    requires forall i :: 0 <= i < |sets| ==> Loggable(sets[i].0, sets[i].1)
    requires db.ht == SetAll(map[], db.image, db.hash, sets)
    modifies db, db.path, db.path.sys
    ensures Plan(old(db.ht), Walk(old(db.image)), order, recs)
    ensures ok <==> db.path.sys.faults == old(db.path.sys.faults) && Valued(old(db.ht), Walk(old(db.image)))
                    && Buildable(recs, db.hash)
    ensures ok ==> ht == SetAll(map[], db.path.db, db.hash, sets)
    ensures ok ==> forall k :: Get(ht, db.path.db, db.hash, k) == Get(old(db.ht), old(db.image), db.hash, k)
  {
    hide IsCdb, Clean, SetAll, Get, Datas, Walked, Walk, Loggable, Persists, Replay, CStr;
    ghost var ht0, image0 := db.ht, db.image;
    ht := map[];
    ok, recs, order := db.Sync();
    if ok {
      forall k
        ensures Get(SetAll(map[], db.image, db.hash, sets), db.image, db.hash, k) == Get(ht0, image0, db.hash, k)
      {
        ReplayAfterSync(sets, image0, olds, db.ht, db.image.value, recs, db.hash, k);
      }
      var relog, changes;
      ht, relog, changes := Recover(sets, |Log(sets)|, map[], db.image, db.hash);
    }
  }

  // --- a crash while the journal is loaded ---

  /** How many values at the end are not empty. */
  function Tail(vals: seq<Str>): nat {
    if vals == [] || vals[|vals| - 1] == [] then 0 else 1 + Tail(vals[..|vals| - 1])
  }

  /** What is seen of a key after its sets: the last value, but where an open file lacks
      the key every second set of a run of non-empty values takes it away. */
  function Shown(vals: seq<Str>, lacks: bool, disk: Option<Str>): Option<Str> {
    if vals == [] then disk
    else if lacks && Tail(vals) % 2 == 0 then None
    else NonEmpty(Some(vals[|vals| - 1]))
  }

  /** The entry comes and goes. */
  lemma {:induction false} LackingRun(vals: seq<Str>)
    ensures var e := KeyRun(None, true, vals);
            && (Tail(vals) % 2 == 1 <==> e.Some? && e.value.value.Some?)
            && (Tail(vals) % 2 == 1 ==> e.value.value == Some(vals[|vals| - 1]))
  {
    if vals != [] {
      LackingRun(vals[..|vals| - 1]);
    }
  }

  lemma ReplayShows(image: Option<seq<byte>>, hash: Str -> u32, sets: seq<(Str, Str)>, k: Str)
    requires forall i :: 0 <= i < |sets| ==> Loggable(sets[i].0, sets[i].1)
    ensures Get(SetAll(map[], image, hash, sets), image, hash, k)
            == Shown(ValuesOf(sets, k), Lacks(image, hash, k), DiskGet(image, hash, k))
  {
    hide SetAll, KeyRun, Lookup, CStr, ValuesOf, Loggable, Tail;
    var vals, lacks := ValuesOf(sets, k), Lacks(image, hash, k);
    SetAllEntry(map[], image, hash, sets, k);
    if vals == [] {
      RunNone(lacks);
    } else {
      RunEnds(lacks, vals);
      LackingRun(vals);
    }
  }

  lemma {:induction false} ValuesConcat(a: seq<(Str, Str)>, b: seq<(Str, Str)>, k: Str)
    ensures ValuesOf(a + b, k) == ValuesOf(a, k) + ValuesOf(b, k)
  {
    hide ValuesOf;
    ValuesNext(a, k);
    if a == [] {
      assert a + b == b && [] + ValuesOf(b, k) == ValuesOf(b, k);
    } else {
      ValuesConcat(a[1..], b, k);
      ValuesNext(a + b, k);
      assert (a + b)[1..] == a[1..] + b;
      Assoc(if a[0].0 == k then [a[0].1] else [], ValuesOf(a[1..], k), ValuesOf(b, k));
    }
  }

  lemma ValuesNext(sets: seq<(Str, Str)>, k: Str)
    ensures ValuesOf(sets, k) == if sets == [] then []
                                 else (if sets[0].0 == k then [sets[0].1] else []) + ValuesOf(sets[1..], k)
  {
  }

  lemma {:induction false} LogConcat(a: seq<(Str, Str)>, b: seq<(Str, Str)>)
    ensures Log(a + b) == Log(a) + Log(b)
  {
    hide LogLine, Log;
    LogNext(a);
    if a == [] {
      assert a + b == b && [] + Log(b) == Log(b);
    } else {
      LogConcat(a[1..], b);
      LogNext(a + b);
      assert (a + b)[1..] == a[1..] + b;
      Assoc(LogLine(a[0].0, a[0].1), Log(a[1..]), Log(b));
    }
  }

  lemma LogNext(sets: seq<(Str, Str)>)
    ensures Log(sets) == if sets == [] then [] else LogLine(sets[0].0, sets[0].1) + Log(sets[1..])
  {
    hide LogLine;
  }

  lemma {:induction false} CompleteConcat(a: seq<(Str, Str)>, b: seq<(Str, Str)>, n: nat)
    ensures Complete(a + b, |Log(a)| + n) == |a| + Complete(b, n)
  {
    hide LogLine;
    if a == [] {
      assert a + b == b;
    } else {
      CompleteConcat(a[1..], b, n);
      assert (a + b)[1..] == a[1..] + b;
    }
  }

  /** The sets that the second load sees twice do no harm to a key. */
  predicate Unharmed(vals: seq<Str>, again: seq<Str>, lacks: bool) {
    again == [] || (
      && vals != []
      && (lacks ==> Tail(vals) % 2 == Tail(vals + again) % 2)
      && (vals[|vals| - 1] == again[|again| - 1] || (lacks && Tail(vals) % 2 == 0)))
  }

  lemma UnharmedIs(vals: seq<Str>, again: seq<Str>, lacks: bool, disk: Option<Str>)
    requires again != [] ==> vals != []
    ensures Shown(vals + again, lacks, disk) == Shown(vals, lacks, disk) <==> Unharmed(vals, again, lacks)
  {
    if again == [] {
      assert vals + again == vals;
    } else {
      assert (vals + again)[|vals + again| - 1] == again[|again| - 1];
    }
  }

  /** Loading stops with `n` bytes logged again behind the journal, and the next start
      loads both: a key reads the same if and only if it is unharmed. */
  method LoadCrashLoad(sets: seq<(Str, Str)>, n: nat, image: Option<seq<byte>>, hash: Str -> u32)
    returns (once: map<Str, Kv>, twice: map<Str, Kv>)
    requires n <= |Log(sets)| && forall i :: 0 <= i < |sets| ==> Loggable(sets[i].0, sets[i].1)
    ensures once == SetAll(map[], image, hash, sets)
    ensures twice == SetAll(map[], image, hash, sets + sets[..Complete(sets, n)])
    ensures forall k :: Get(twice, image, hash, k) == Get(once, image, hash, k)
                        <==> Unharmed(ValuesOf(sets, k), ValuesOf(sets[..Complete(sets, n)], k), Lacks(image, hash, k))
  {
    hide SetAll, Get, Log, Complete, CStr, Loggable, Replay, Relog, ValuesOf, Lacks, Shown, Unharmed, DiskGet;
    var changes, relog, more;
    CompleteAll(sets);
    assert sets[..|sets|] == sets;
    once, relog, changes := Recover(sets, |Log(sets)|, map[], image, hash);
    ghost var m := Complete(sets, n);
    FileAfterCrash(sets, n);
    twice, changes, more := Load(Log(sets) + relog[..n], map[], image, hash);
    PrefixReplays(map[], image, hash, sets + sets, |Log(sets)| + n);
    forall k
      ensures Get(twice, image, hash, k) == Get(once, image, hash, k)
              <==> Unharmed(ValuesOf(sets, k), ValuesOf(sets[..m], k), Lacks(image, hash, k))
    {
      ReplayShows(image, hash, sets, k);
      ReplayShows(image, hash, sets + sets[..m], k);
      ValuesConcat(sets, sets[..m], k);
      PrefixValues(sets, m, k);
      UnharmedIs(ValuesOf(sets, k), ValuesOf(sets[..m], k), Lacks(image, hash, k), DiskGet(image, hash, k));
    }
  }

  lemma FileAfterCrash(sets: seq<(Str, Str)>, n: nat)
    requires n <= |Log(sets)| && forall i :: 0 <= i < |sets| ==> Loggable(sets[i].0, sets[i].1)
    ensures |Log(sets)| + n <= |Log(sets + sets)|
    ensures CStr(Log(sets) + Log(sets)[..n]) == Log(sets + sets)[..|Log(sets)| + n]
    ensures (sets + sets)[..Complete(sets + sets, |Log(sets)| + n)] == sets + sets[..Complete(sets, n)]
  {
    hide Log, Complete, CStr, Loggable;
    LogConcat(sets, sets);
    CompleteConcat(sets, sets, n);
    LogIsCStr(sets + sets);
    PrefixCStr(Log(sets + sets), |Log(sets)| + n);
    assert Log(sets) + Log(sets)[..n] == Log(sets + sets)[..|Log(sets)| + n];
  }

  lemma PrefixValues(sets: seq<(Str, Str)>, m: nat, k: Str)
    requires m <= |sets|
    ensures ValuesOf(sets[..m], k) != [] ==> ValuesOf(sets, k) != []
  {
    hide ValuesOf;
    ValuesConcat(sets[..m], sets[m..], k);
    assert sets[..m] + sets[m..] == sets;
  }

  /** Over the empty database file a key that was set once is gone when its line has been
      logged again. */
  lemma ReloadForgets(hash: Str -> u32, key: Str, val: Str)
    requires Loggable(key, val) && val != []
    ensures var image := Some(FileWith(HEADER, 0, []));
            var sets := [(key, val)];
            && Get(SetAll(map[], image, hash, sets), image, hash, key) == Some(val)
            && Get(SetAll(map[], image, hash, sets + sets), image, hash, key) == None
  {
    hide FileWith, SetAll, ValuesOf, IsCdb, Lookup, CStr, Loggable, Datas, Get;
    var file := FileWith(HEADER, 0, []);
    var sets := [(key, val)];
    EmptyFile(hash);
    LacksIs(file, [], hash, key);
    ReplayShows(Some(file), hash, sets, key);
    ReplayShows(Some(file), hash, sets + sets, key);
    ValuesConcat(sets, sets, key);
    OneValue(key, val);
    NoDatas(key);
    var two := [val] + [val];
    assert two[..1] == [val] && two[1] == val && [val][..0] == [];
    assert Tail([val]) == 1 && Tail(two) == 2;
  }

  lemma OneValue(key: Str, val: Str)
    ensures ValuesOf([(key, val)], key) == [val]
  {
  }
}
