/**
 src/cdb.c: looking a key up in the raw bytes of a mapped file.

 `Lookup` says what one fresh search answers on any file at all, damaged ones
 included; `Cdb.FindNext` is the search loop, proved to compute it; and
 `LookupCorrect` says what the answer means on a complete database.
 */
module CdbReader {
  import opened Bytes
  import opened CdbFormat

  datatype Outcome = Found(dpos: nat, dlen: nat) | NotFound | Corrupt

  /** The bounds test of `cdb_read` on a mapped file. */
  predicate Readable(image: seq<byte>, pos: nat, len: nat) {
    pos + len <= |image|
  }

  /** Three answers of the static `match`: the bytes agree, differ, or run off the file. */
  datatype Matched = Agrees | Differs | Unreadable

  /** Compares `key` with the file in chunks of 32 bytes. */
  function MatchAt(image: seq<byte>, key: seq<byte>, pos: nat): (m: Matched)
    ensures m == Agrees && key != [] ==> pos + |key| <= |image|
    ensures pos + |key| <= |image| ==> m == if image[pos..pos + |key|] == key then Agrees else Differs
    decreases |key|
  {
    if key == [] then Agrees else
    var n := if 32 > |key| then |key| else 32;
    if !Readable(image, pos, n) then Unreadable else
    var buf := image[pos..pos + n];
    assert pos + |key| <= |image| ==> image[pos..pos + |key|] == buf + image[pos + n..pos + |key|];
    assert key == key[..n] + key[n..];
    if buf != key[..n] then
      assert pos + |key| <= |image| ==> image[pos..pos + |key|][..n] == buf;
      Differs
    else MatchAt(image, key[n..], pos + n)
  }

  /** `kpos` moves to the next slot and wraps at the end of the table. */
  function NextSlot(hpos: nat, hslots: nat, kpos: nat): nat {
    var k := Wrap(kpos + 8);
    if k == Wrap(hpos + 8 * hslots) then hpos else k
  }

  /** What the slot that holds position `pos` and the right hash says about `key`. */
  function Examine(image: seq<byte>, pos: nat, key: seq<byte>): (o: Outcome)
    // NotFound stands for "another key, go on"; Corrupt with a readable length
    // of zero or a record cut short is told apart by the caller's branch
  {
    if !Readable(image, pos, KVLSZ) || image[pos] == 0 then Corrupt
    else if image[pos] as int != |key| + 1 || MatchAt(image, key + [0], Wrap(pos + KVLSZ)) != Agrees then NotFound
    else Found(Wrap(pos + KVLSZ + |key| + 1), ValueLen(image, pos))
  }

  /** The record at `pos` is cut short inside its key, which ends the search. */
  predicate CutShort(image: seq<byte>, pos: nat, key: seq<byte>) {
    && Readable(image, pos, KVLSZ)
    && image[pos] as int == |key| + 1
    && MatchAt(image, key + [0], Wrap(pos + KVLSZ)) == Unreadable
  }

  /** The probe loop, from slot address `kpos` with `loop` slots already searched. */
  function Probe(image: seq<byte>, hpos: nat, hslots: nat, khash: nat, key: seq<byte>, kpos: nat, loop: nat): Outcome
    decreases hslots - loop
  {
    if loop >= hslots || !Readable(image, kpos, 8) then NotFound else
    var pos := U32At(image, kpos + 4);
    if pos == 0 then NotFound else
    if U32At(image, kpos) == khash && (Examine(image, pos, key) != NotFound || CutShort(image, pos, key)) then
      Examine(image, pos, key)
    else
      Probe(image, hpos, hslots, khash, key, NextSlot(hpos, hslots, kpos), loop + 1)
  }

  /** End of the table of hash `u`: where the next one starts, or the end of the file. */
  function TableEnd(image: seq<byte>, u: nat): nat
    requires |image| >= 4 * (u % 256) + if u % 256 == 255 then 4 else 8
  {
    if u % 256 == 255 then |image| else U32At(image, 4 * (u % 256) + 4)
  }

  /** A fresh search: `cdb_findstart` then `cdb_findnext`. */
  function Lookup(image: seq<byte>, u: nat, key: seq<byte>): Outcome {
    if !Readable(image, 4 * (u % 256), if u % 256 == 255 then 4 else 8) then Corrupt else
    var hpos := U32At(image, 4 * (u % 256));
    if TableEnd(image, u) < hpos then Corrupt else
    var hslots := (TableEnd(image, u) - hpos) / 8;
    if hslots == 0 then NotFound
    else Probe(image, hpos, hslots, u, key, Wrap(hpos + 8 * Home(u, hslots)), 0)
  }

  // --- the search loop of cdb.c ---

  class Cdb {
    var fd: int
    var image: seq<byte>
    var loop: nat
    var khash: nat
    var kpos: nat
    var hpos: nat
    var hslots: nat
    var dpos: nat
    var dlen: nat

    ghost predicate Valid()
      reads this
    {
      |image| < TWO32
    }

    /** `cdb_init` on a file that could be mapped. The size is kept in 32 bits, so of a
        larger file only a first part is in bounds. */
    constructor (fd: int, file: seq<byte>)
      ensures Valid() && this.fd == fd && image == file[..|file| % TWO32] && loop == 0
      ensures |file| < TWO32 ==> image == file
    {
      this.fd, image, loop := fd, file[..|file| % TWO32], 0;
      khash, kpos, hpos, hslots, dpos, dlen := 0, 0, 0, 0, 0, 0;
    }

    method FindStart()
      modifies `loop
      ensures loop == 0
    {
      loop := 0;
    }

    /** The static `match`. */
    method Match(key: seq<byte>, at: nat) returns (m: int)
      ensures m == match MatchAt(image, key, at) case Agrees => 1 case Differs => 0 case Unreadable => -1
    {
      var pos: nat, rest := at, key;
      while |rest| > 0
        invariant MatchAt(image, rest, pos) == MatchAt(image, key, at)
      {
        var n := if 32 > |rest| then |rest| else 32;
        if !Readable(image, pos, n) {
          return -1;
        }
        if image[pos..pos + n] != rest[..n] {
          return 0;
        }
        pos, rest := pos + n, rest[n..];
      }
      return 1;
    }

    /** 1 found, 0 not found, -1 unusable. The slot count is cleared on entry, so
        only a search that starts afresh can find anything. */
    method FindNext(u: u32, key: seq<byte>) returns (r: int)
      requires Valid() && |key| + 1 < TWO32
      modifies `loop, `khash, `kpos, `hpos, `hslots, `dpos, `dlen
      ensures fd == -1 ==> r == -1
      ensures fd != -1 && old(loop) != 0 ==> r == 0 && loop == old(loop)
      ensures fd != -1 && old(loop) == 0 ==>
                match Lookup(image, u, key)
                case Found(p, l) => r == 1 && dpos == p && dlen == l
                case NotFound => r == 0
                case Corrupt => r == -1
    {
      hide U32At, Home, Probe;
      if fd == -1 {
        return -1;
      }
      hslots := 0;
      if loop != 0 {
        // the loop below has no slot to visit
        return 0;
      }
      var bufsz := if u % 256 == 255 then 4 else 8;
      if !Readable(image, 4 * (u % 256), bufsz) {
        return -1;
      }
      hpos := U32At(image, 4 * (u % 256));
      var end := if bufsz == 8 then U32At(image, 4 * (u % 256) + 4) else |image|;
      if end < hpos {
        return -1;
      }
      hslots := (end - hpos) / 8;
      if hslots == 0 {
        return 0;
      }
      khash := u;
      kpos := Wrap(hpos + 8 * Home(u, hslots));
      r := Walk(key);
    }

    /** The loop of `cdb_findnext` once the table is known. */
    method Walk(key: seq<byte>) returns (r: int)
      modifies `loop, `kpos, `dpos, `dlen
      ensures match Probe(image, old(hpos), old(hslots), old(khash), key, old(kpos), old(loop))
              case Found(p, l) => r == 1 && dpos == p && dlen == l
              case NotFound => r == 0
              case Corrupt => r == -1
    {
      hide U32At, Examine, CutShort, Probe, NextSlot;
      ghost var answer := Probe(image, hpos, hslots, khash, key, kpos, loop);
      while loop < hslots
        invariant Probe(image, hpos, hslots, khash, key, kpos, loop) == answer
      {
        ProbeOnce(image, hpos, hslots, khash, key, kpos, loop);
        if !Readable(image, kpos, 8) {
          return 0;
        }
        var h, pos := U32At(image, kpos), U32At(image, kpos + 4);
        if pos == 0 {
          return 0;
        }
        loop := loop + 1;
        kpos := Advance();
        if h == khash {
          var go;
          r, go := ExamineAt(pos, key);
          if !go {
            return;
          }
        }
      }
      ProbeEnd(image, hpos, hslots, khash, key, kpos, loop);
      return 0;
    }

    /** The next slot address. */
    method Advance() returns (k: nat)
      ensures k == NextSlot(hpos, hslots, kpos)
    {
      k := Wrap(kpos + 8);
      if k == Wrap(hpos + 8 * hslots) {
        k := hpos;
      }
    }

    /** The part of the loop that looks at a record: whether to go on, or the answer. */
    method ExamineAt(pos: nat, key: seq<byte>) returns (r: int, go: bool)
      modifies `dpos, `dlen
      ensures go <==> Examine(image, pos, key) == NotFound && !CutShort(image, pos, key)
      ensures !go ==> match Examine(image, pos, key)
                      case Found(p, l) => r == 1 && dpos == p && dlen == l
                      case NotFound => r == 0
                      case Corrupt => r == -1
    {
      hide ValueLen, MatchAt, Wrap;
      if !Readable(image, pos, KVLSZ) {
        return -1, false;
      }
      dlen := ValueLen(image, pos);
      if image[pos] == 0 {
        return -1, false;
      }
      if image[pos] as int == |key| + 1 {
        var m := Match(key + [0], Wrap(pos + KVLSZ));
        if m == -1 {
          return 0, false;
        }
        if m == 1 {
          dpos := Wrap(pos + KVLSZ + |key| + 1);
          return 1, false;
        }
      }
      return 0, true;
    }
  }

  lemma ProbeOnce(image: seq<byte>, hpos: nat, hslots: nat, khash: nat, key: seq<byte>, kpos: nat, loop: nat)
    requires loop < hslots
    ensures !Readable(image, kpos, 8) ==> Probe(image, hpos, hslots, khash, key, kpos, loop) == NotFound
    ensures Readable(image, kpos, 8) ==>
              var pos := U32At(image, kpos + 4);
              Probe(image, hpos, hslots, khash, key, kpos, loop) ==
              if pos == 0 then NotFound
              else if U32At(image, kpos) == khash
                   && (Examine(image, pos, key) != NotFound || CutShort(image, pos, key)) then Examine(image, pos, key)
              else Probe(image, hpos, hslots, khash, key, NextSlot(hpos, hslots, kpos), loop + 1)
  {
    hide U32At, Examine, CutShort, NextSlot;
  }

  lemma ProbeEnd(image: seq<byte>, hpos: nat, hslots: nat, khash: nat, key: seq<byte>, kpos: nat, loop: nat)
    requires loop >= hslots
    ensures Probe(image, hpos, hslots, khash, key, kpos, loop) == NotFound
  {
  }

  // --- what a lookup means on a complete database ---

  /** One search, seen from the format: bucket, table, and where its entries sit. */
  ghost predicate Search(file: seq<byte>, recs: seq<Rec>, hash: seq<byte> -> u32, key: seq<byte>,
                         hpos: nat, tab: seq<Hp>, at: seq<nat>) {
    var es := Bucket(Hps(recs, hash), hash(key) % 256);
    && |file| < TWO32
    && TableAt(file, hpos, tab)
    && |tab| > 0
    && Probed(tab, es, at)
    && forall i :: 0 <= i < |recs| ==> RecordAt(file, RecPos(recs, i), recs[i])
  }

  /** The first record for the key is entry `j` of its bucket, `D` steps from home. */
  ghost predicate Located(recs: seq<Rec>, hash: seq<byte> -> u32, key: seq<byte>, at: seq<nat>, len: nat, j: nat,
                          D: nat) {
    var es := Bucket(Hps(recs, hash), hash(key) % 256);
    var f := FirstIndex(recs, key);
    && f < |recs| && j < |es| == |at| && len > 0
    && es[j] == Hps(recs, hash)[f]
    && Path(Home(hash(key), len), D, at[j], at[..j], len)
  }

  lemma Locate(recs: seq<Rec>, hash: seq<byte> -> u32, key: seq<byte>, tab: seq<Hp>, at: seq<nat>)
    returns (j: nat, D: nat)
    requires |tab| > 0 && Probed(tab, Bucket(Hps(recs, hash), hash(key) % 256), at)
    requires FirstIndex(recs, key) < |recs|
    ensures Located(recs, hash, key, at, |tab|, j, D)
  {
    hide Bucket, Hps, Home;
    var es := Bucket(Hps(recs, hash), hash(key) % 256);
    var e := Hps(recs, hash)[FirstIndex(recs, key)];
    BucketMember(Hps(recs, hash), hash(key) % 256, e);
    j :| 0 <= j < |es| && es[j] == e;
    assert PavedTo(es, at, |tab|, j);
    D :| Path(Home(es[j].h, |tab|), D, at[j], at[..j], |tab|);
  }

  /** Which record an occupied slot belongs to. */
  lemma SlotRecord(recs: seq<Rec>, hash: seq<byte> -> u32, b: nat, tab: seq<Hp>, at: seq<nat>, s: nat)
    returns (q: nat, i: nat)
    requires Probed(tab, Bucket(Hps(recs, hash), b), at)
    requires s in at
    ensures q < |at| && at[q] == s && i < |recs|
    ensures s < |tab| && tab[s] == Bucket(Hps(recs, hash), b)[q] == Hps(recs, hash)[i]
    ensures tab[s].p == RecPos(recs, i) >= HEADER
  {
    q :| 0 <= q < |at| && at[q] == s;
    var e := Bucket(Hps(recs, hash), b)[q];
    BucketMember(Hps(recs, hash), b, e);
    i :| 0 <= i < |recs| && Hps(recs, hash)[i] == e;
  }

  /** The first record for the key is met before any other record for it. */
  lemma FirstComesFirst(recs: seq<Rec>, hash: seq<byte> -> u32, key: seq<byte>, tab: seq<Hp>, at: seq<nat>,
                        j: nat, D: nat, t: nat, q: nat, i: nat)
    requires Probed(tab, Bucket(Hps(recs, hash), hash(key) % 256), at)
    requires Located(recs, hash, key, at, |tab|, j, D)
    requires t <= D && q < |at| && at[q] == Slot(Home(hash(key), |tab|), t, |tab|)
    requires i < |recs| && Bucket(Hps(recs, hash), hash(key) % 256)[q] == Hps(recs, hash)[i]
    ensures t < D <==> recs[i].key != key
    ensures t == D ==> i == FirstIndex(recs, key)
  {
    hide Bucket, Hps, Home, Path, Seated, Paved;
    var hs := Hps(recs, hash);
    var es := Bucket(hs, hash(key) % 256);
    var f := FirstIndex(recs, key);
    HpsRising(recs, hash);
    BucketRising(hs, hash(key) % 256);
    SlotOrder(tab, es, at, Home(hash(key), |tab|), j, D, t, q);
    RisingOrder(hs, es, i, f, q, j);
  }

  /** A slot before the end of the path was taken earlier. */
  lemma SlotOrder(tab: seq<Hp>, es: seq<Hp>, at: seq<nat>, home: nat, j: nat, D: nat, t: nat, q: nat)
    requires Seated(tab, es, at) && j < |at| && q < |at| && t <= D && Path(home, D, at[j], at[..j], |tab|)
    requires at[q] == Slot(home, t, |tab|)
    ensures if t < D then q < j else q == j
  {
    hide Slot;
    if t < D {
      var x :| 0 <= x < j && at[..j][x] == at[q];
      assert at[x] == at[q];
    }
  }

  /** Entries stand in the same order in both lists when positions rise in both. */
  lemma RisingOrder(hs: seq<Hp>, es: seq<Hp>, i: nat, f: nat, q: nat, j: nat)
    requires Rising(hs) && Rising(es) && i < |hs| && f < |hs| && q < |es| && j < |es|
    requires es[q] == hs[i] && es[j] == hs[f]
    ensures (q < j <==> i < f) && (q == j <==> i == f)
  {
  }

  /** The slot at step `t` decides the search, or sends it one step on. */
  lemma ProbeStep(file: seq<byte>, recs: seq<Rec>, hash: seq<byte> -> u32, key: seq<byte>,
                  hpos: nat, tab: seq<Hp>, at: seq<nat>, t: nat)
    returns (i: nat, q: nat)
    requires Search(file, recs, hash, key, hpos, tab, at) && t < |tab|
    ensures var s := Slot(Home(hash(key), |tab|), t, |tab|);
            var kpos := hpos + 8 * s;
            var here := Probe(file, hpos, |tab|, hash(key), key, kpos, t);
            && (s !in at ==> here == NotFound)
            && (s in at ==>
                  && i < |recs| && q < |at| && at[q] == s
                  && Bucket(Hps(recs, hash), hash(key) % 256)[q] == Hps(recs, hash)[i]
                  && here == if recs[i].key == key
                             then Found(RecPos(recs, i) + KVLSZ + |key| + 1, |recs[i].data| + 1)
                             else Probe(file, hpos, |tab|, hash(key), key,
                                        hpos + 8 * Slot(Home(hash(key), |tab|), t + 1, |tab|), t + 1))
  {
    hide Bucket, Hps, Home, RecPos, RecordAt, MatchAt, FirstIndex, U32At, Examine, CutShort;
    var len := |tab|;
    var s := Slot(Home(hash(key), len), t, len);
    var kpos := hpos + 8 * s;
    i, q := 0, 0;
    assert kpos + 8 <= hpos + 8 * len <= |file|;
    if s in at {
      q, i := SlotRecord(recs, hash, hash(key) % 256, tab, at, s);
      assert RecordAt(file, RecPos(recs, i), recs[i]);
      ExamineRecord(file, RecPos(recs, i), recs[i], key);
      assert NextSlot(hpos, len, kpos) == hpos + 8 * Slot(Home(hash(key), len), t + 1, len);
    }
  }

  /** Examining a stored record tells exactly whether it is under `key`. */
  lemma ExamineRecord(file: seq<byte>, p: nat, r: Rec, key: seq<byte>)
    requires |file| < TWO32 && RecordAt(file, p, r)
    ensures !CutShort(file, p, key)
    ensures Examine(file, p, key) == if r.key == key then Found(p + KVLSZ + |key| + 1, |r.data| + 1) else NotFound
  {
    if |r.key| == |key| {
      assert (r.key + [0])[..|key|] == r.key;
      assert (key + [0])[..|key|] == key;
    }
  }

  lemma {:induction false} ProbeCorrect(file: seq<byte>, recs: seq<Rec>, hash: seq<byte> -> u32, key: seq<byte>,
                                        hpos: nat, tab: seq<Hp>, at: seq<nat>, j: nat, D: nat, t: nat)
    requires Search(file, recs, hash, key, hpos, tab, at) && t <= |tab|
    requires FirstIndex(recs, key) < |recs| ==> Located(recs, hash, key, at, |tab|, j, D) && t <= D
    ensures Probe(file, hpos, |tab|, hash(key), key, hpos + 8 * Slot(Home(hash(key), |tab|), t, |tab|), t)
            == Expected(recs, key)
    decreases |tab| - t
  {
    hide Bucket, Hps, Home, RecPos, RecordAt, U32At, Examine;
    if t < |tab| {
      var i, q := ProbeStep(file, recs, hash, key, hpos, tab, at, t);
      var s := Slot(Home(hash(key), |tab|), t, |tab|);
      if FirstIndex(recs, key) < |recs| {
        assert s in at;
        FirstComesFirst(recs, hash, key, tab, at, j, D, t, q, i);
      }
      if s in at && recs[i].key != key {
        ProbeCorrect(file, recs, hash, key, hpos, tab, at, j, D, t + 1);
      }
    }
  }

  /** What a lookup of `key` must answer. */
  ghost function Expected(recs: seq<Rec>, key: seq<byte>): (o: Outcome) {
    var i := FirstIndex(recs, key);
    if i == |recs| then NotFound else Found(RecPos(recs, i) + KVLSZ + |key| + 1, |recs[i].data| + 1)
  }

  /** The header entry of a hash leads to its table. */
  lemma LookupFindsTable(file: seq<byte>, recs: seq<Rec>, hash: seq<byte> -> u32, tabs: seq<seq<Hp>>, tpos: seq<nat>,
                         key: seq<byte>)
    requires IsCdbWith(file, recs, hash, tabs, tpos)
    ensures Lookup(file, hash(key), key) ==
            var tab := tabs[hash(key) % 256];
            var hpos := tpos[hash(key) % 256];
            if tab == [] then NotFound
            else Probe(file, hpos, |tab|, hash(key), key, hpos + 8 * Slot(Home(hash(key), |tab|), 0, |tab|), 0)
  {
    hide Probe, Bucket, Hps, RecPos, RecordAt, IsTable, U32At, Home;
    var b := hash(key) % 256;
    assert BucketOk(file, recs, hash, tabs[b], tpos, b);
    if b < 255 {
      assert BucketOk(file, recs, hash, tabs[b + 1], tpos, b + 1);
    }
  }

  /** Everything a lookup of `key` meets: its table, and no entry when that is empty. */
  lemma OpenSearch(file: seq<byte>, recs: seq<Rec>, hash: seq<byte> -> u32, tabs: seq<seq<Hp>>, tpos: seq<nat>,
                   key: seq<byte>) returns (at: seq<nat>)
    requires IsCdbWith(file, recs, hash, tabs, tpos)
    ensures var tab := tabs[hash(key) % 256];
            if tab == [] then Bucket(Hps(recs, hash), hash(key) % 256) == []
            else Search(file, recs, hash, key, tpos[hash(key) % 256], tab, at)
  {
    hide Bucket, Hps, RecPos, RecordAt, TableAt, U32At, Probed;
    var b := hash(key) % 256;
    assert BucketOk(file, recs, hash, tabs[b], tpos, b);
    at :| Probed(tabs[b], Bucket(Hps(recs, hash), b), at);
  }

  /** The search answers as expected. */
  lemma LookupExpected(file: seq<byte>, recs: seq<Rec>, hash: seq<byte> -> u32, tabs: seq<seq<Hp>>, tpos: seq<nat>,
                       key: seq<byte>)
    requires IsCdbWith(file, recs, hash, tabs, tpos)
    ensures Lookup(file, hash(key), key) == Expected(recs, key)
  {
    hide Bucket, Hps, RecPos, RecordAt, Probe, Home, Lookup, BucketOk, Probed;
    LookupFindsTable(file, recs, hash, tabs, tpos, key);
    var at := OpenSearch(file, recs, hash, tabs, tpos, key);
    var b := hash(key) % 256;
    var i := FirstIndex(recs, key);
    var j, D := 0, 0;
    if i < |recs| {
      BucketMember(Hps(recs, hash), b, Hps(recs, hash)[i]);
      j, D := Locate(recs, hash, key, tabs[b], at);
    }
    if |tabs[b]| > 0 {
      ProbeCorrect(file, recs, hash, key, tpos[b], tabs[b], at, j, D, 0);
    }
  }

  /** On a complete database a lookup never reports damage: it answers with the
      data of the first record added under the key, and finds nothing for a key
      that was never added. */
  lemma LookupCorrect(file: seq<byte>, recs: seq<Rec>, hash: seq<byte> -> u32, key: seq<byte>)
    requires IsCdb(file, recs, hash)
    ensures var i := FirstIndex(recs, key);
            if i == |recs| then Lookup(file, hash(key), key) == NotFound
            else
              match Lookup(file, hash(key), key)
              case Found(p, l) => l == |recs[i].data| + 1 && p + l <= |file| && file[p..p + l] == recs[i].data + [0]
              case _ => false
  {
    hide Lookup, BucketOk, RecPos;
    var tabs, tpos :| IsCdbWith(file, recs, hash, tabs, tpos);
    LookupExpected(file, recs, hash, tabs, tpos, key);
    var i := FirstIndex(recs, key);
    if i < |recs| {
      assert RecordAt(file, RecPos(recs, i), recs[i]);
    }
  }
}
