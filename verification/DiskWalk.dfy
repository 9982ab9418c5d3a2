/**
 The sequential walk over a database file (sdb_dump_begin and sdb_dump_dupnext
 in src/sdb.c) and a whole run of the writer followed by a lookup.
 */
module DiskWalk {
  import opened Bytes
  import opened Options
  import opened Buffers
  import opened CdbFormat
  import opened CdbWriter
  import opened CdbReader

  /** A C string: the bytes before the first zero. */
  function CStr(s: seq<byte>): (r: seq<byte>)
    ensures 0 !in r && r <= s
  {
    if s == [] || s[0] == 0 then [] else [s[0]] + CStr(s[1..])
  }

  predicate IsCStr(s: seq<byte>) {
    0 !in s
  }

  lemma {:induction false} CStrWhole(s: seq<byte>)
    requires IsCStr(s)
    ensures CStr(s) == s
  {
    if s != [] {
      CStrWhole(s[1..]);
    }
  }

  lemma {:induction false} CStrTerminated(s: seq<byte>)
    requires IsCStr(s)
    ensures CStr(s + [0]) == s
  {
    if s != [] {
      CStrTerminated(s[1..]);
      assert (s + [0])[1..] == s[1..] + [0];
    }
  }

  /** One step of the walk; `value` is null when its length byte pattern is the
      reserved 0xffffff. */
  datatype Step = Step(key: seq<byte>, value: Option<seq<byte>>, next: nat)

  /** `sdb_dump_dupnext` at position `pos`. Key bytes are consumed only when
      1 < klen < 255. */
  function DumpNext(file: seq<byte>, pos: nat): (r: Option<Step>)
    ensures r.Some? ==> pos < r.value.next <= |file|
  {
    if pos + KVLSZ > |file| then None else
    var klen: nat, vlen := file[pos], ValueLen(file, pos);
    if klen < 1 || vlen < 1 then None else
    var p := pos + KVLSZ;
    var keyed := 1 < klen < MAX_KEY;
    if keyed && p + klen > |file| then None else
    var key := if keyed then CStr(file[p..p + klen]) else [];
    var q := if keyed then p + klen else p;
    if vlen >= MAX_VALUE then Some(Step(key, None, q))
    else if q + vlen > |file| then None
    else Some(Step(key, Some(CStr(file[q..q + vlen])), q + vlen))
  }

  /** The whole walk from `pos`. */
  function Dump(file: seq<byte>, pos: nat): seq<Step>
    decreases |file| - pos
  {
    match DumpNext(file, pos)
    case None => []
    case Some(s) => [s] + Dump(file, s.next)
  }

  /** Records the walk reads back as they were written. */
  predicate Walkable(r: Rec) {
    1 <= |r.key| <= 253 && IsCStr(r.key) && IsCStr(r.data)
  }

  lemma DumpRecord(file: seq<byte>, p: nat, r: Rec)
    requires RecordAt(file, p, r) && Walkable(r) && Storable(r)
    ensures DumpNext(file, p) == Some(Step(r.key, Some(r.data), p + RecSize(r)))
  {
    hide CStr, ValueLen;
    CStrTerminated(r.key);
    CStrTerminated(r.data);
  }

  /** A stored record is read back exactly when its key has 1 to 253 octets; the empty key
      and those of 254 octets are passed over as if they were not there. */
  lemma DumpExact(file: seq<byte>, p: nat, r: Rec)
    requires RecordAt(file, p, r) && Storable(r) && IsCStr(r.key) && IsCStr(r.data)
    ensures DumpNext(file, p) == Some(Step(r.key, Some(r.data), p + RecSize(r))) <==> 1 <= |r.key| <= 253
    ensures !(1 <= |r.key| <= 253) ==> DumpNext(file, p).Some? && DumpNext(file, p).value.key == []
                                       && DumpNext(file, p).value.next == p + 4 + |r.data| + 1
  {
    hide CStr, ValueLen;
    if Walkable(r) {
      DumpRecord(file, p, r);
    }
  }

  /** The steps a walk over `recs` makes, in write order. */
  function Steps(recs: seq<Rec>, i: nat): (s: seq<Step>)
    requires i <= |recs|
    ensures |s| == |recs| - i
    decreases |recs| - i
  {
    if i == |recs| then []
    else [Step(recs[i].key, Some(recs[i].data), RecPos(recs, i + 1))] + Steps(recs, i + 1)
  }

  lemma {:induction false} DumpFrom(file: seq<byte>, recs: seq<Rec>, hash: seq<byte> -> u32, tabs: seq<seq<Hp>>,
                                    tpos: seq<nat>, i: nat)
    requires IsCdbWith(file, recs, hash, tabs, tpos) && i <= |recs|
    requires forall k :: 0 <= k < |recs| ==> Walkable(recs[k])
    ensures Dump(file, RecPos(recs, i)) == Steps(recs, i) + Dump(file, RecPos(recs, |recs|))
    decreases |recs| - i
  {
    hide RecPos, RecordAt, BucketOk, Walkable, DumpNext;
    if i < |recs| {
      assert RecordAt(file, RecPos(recs, i), recs[i]);
      DumpRecord(file, RecPos(recs, i), recs[i]);
      RecPosNext(recs, i);
      RecordInside(file, RecPos(recs, i), recs[i]);
      DumpFrom(file, recs, hash, tabs, tpos, i + 1);
      Assoc([Step(recs[i].key, Some(recs[i].data), RecPos(recs, i + 1))], Steps(recs, i + 1),
            Dump(file, RecPos(recs, |recs|)));
    }
  }

  /** The first key of another length makes the walk leave the records. */
  lemma {:induction false} DumpDeviates(file: seq<byte>, recs: seq<Rec>, hash: seq<byte> -> u32, tabs: seq<seq<Hp>>,
                                        tpos: seq<nat>, i: nat, bad: nat)
    requires IsCdbWith(file, recs, hash, tabs, tpos) && i <= bad < |recs| && !(1 <= |recs[bad].key| <= 253)
    requires forall k :: 0 <= k < |recs| ==> IsCStr(recs[k].key) && IsCStr(recs[k].data)
    ensures !(Steps(recs, i) <= Dump(file, RecPos(recs, i)))
    decreases |recs| - i
  {
    hide IsCdbWith, RecPos, RecordAt, DumpNext, RecSize, Dump, Steps, Storable, IsCStr;
    var p := RecPos(recs, i);
    StoredAt(file, recs, hash, tabs, tpos, i);
    DumpExact(file, p, recs[i]);
    RecPosNext(recs, i);
    DumpOne(file, p);
    StepsOne(recs, i);
    var s := Step(recs[i].key, Some(recs[i].data), RecPos(recs, i + 1));
    if 1 <= |recs[i].key| <= 253 {
      DumpDeviates(file, recs, hash, tabs, tpos, i + 1, bad);
      PrefixTail(s, Steps(recs, i + 1), Dump(file, s.next));
    } else {
      PrefixHead(s, Steps(recs, i + 1), DumpNext(file, p).value, Dump(file, DumpNext(file, p).value.next));
    }
  }

  lemma StoredAt(file: seq<byte>, recs: seq<Rec>, hash: seq<byte> -> u32, tabs: seq<seq<Hp>>, tpos: seq<nat>, i: nat)
    requires IsCdbWith(file, recs, hash, tabs, tpos) && i < |recs|
    ensures RecordAt(file, RecPos(recs, i), recs[i]) && Storable(recs[i])
  {
    hide RecPos, RecordAt, BucketOk, Storable;
  }

  lemma StepsOne(recs: seq<Rec>, i: nat)
    requires i < |recs|
    ensures Steps(recs, i) == [Step(recs[i].key, Some(recs[i].data), RecPos(recs, i + 1))] + Steps(recs, i + 1)
  {
    hide RecPos;
  }

  lemma PrefixHead(s: Step, a: seq<Step>, t: Step, b: seq<Step>)
    ensures [s] + a <= [t] + b ==> s == t
  {
    assert ([s] + a)[0] == s && ([t] + b)[0] == t;
  }

  lemma PrefixTail(s: Step, a: seq<Step>, b: seq<Step>)
    ensures [s] + a <= [s] + b ==> a <= b
  {
    assert ([s] + a)[1..] == a && ([s] + b)[1..] == b;
    if [s] + a <= [s] + b {
      assert ([s] + b)[..|a| + 1] == [s] + a;
      assert b[..|a|] == ([s] + b)[1..|a| + 1];
    }
  }

  lemma DumpOne(file: seq<byte>, pos: nat)
    ensures Dump(file, pos) == match DumpNext(file, pos) case None => [] case Some(s) => [s] + Dump(file, s.next)
  {
  }

  /** The walk gives the records first exactly when all keys have 1 to 253 octets. */
  lemma WalkExact(file: seq<byte>, recs: seq<Rec>, hash: seq<byte> -> u32)
    requires IsCdb(file, recs, hash) && forall k :: 0 <= k < |recs| ==> IsCStr(recs[k].key) && IsCStr(recs[k].data)
    ensures Steps(recs, 0) <= Dump(file, HEADER) <==> forall k :: 0 <= k < |recs| ==> 1 <= |recs[k].key| <= 253
  {
    hide IsCdbWith, Dump, Stops;
    FirstPos(recs);
    if forall k :: 0 <= k < |recs| ==> 1 <= |recs[k].key| <= 253 {
      WalkCorrect(file, recs, hash);
    } else {
      var tabs, tpos :| IsCdbWith(file, recs, hash, tabs, tpos);
      var bad :| 0 <= bad < |recs| && !(1 <= |recs[bad].key| <= 253);
      DumpDeviates(file, recs, hash, tabs, tpos, 0, bad);
    }
  }

  lemma RecordInside(file: seq<byte>, p: nat, r: Rec)
    requires RecordAt(file, p, r)
    ensures p + RecSize(r) <= |file|
  {
  }

  /** A test on the finished file: what stands where the first header entry points, the
      end of the records, cannot be a record, because the file ends there, one of the
      lengths is zero, or the lengths lead past the end of the file. */
  predicate Stops(file: seq<byte>) {
    |file| >= HEADER &&
    var p := U32At(file, 0);
    p + KVLSZ > |file| ||
    var klen: nat, vlen := file[p], ValueLen(file, p);
    var q := p + KVLSZ + if 1 < klen < MAX_KEY then klen else 0;
    klen == 0 || vlen == 0 || q > |file| || (vlen < MAX_VALUE && q + vlen > |file|)
  }

  lemma StopsNext(file: seq<byte>)
    requires |file| >= HEADER
    ensures Stops(file) <==> DumpNext(file, U32At(file, 0)) == None
  {
    hide CStr, U32At;
  }

  /** The first header entry points behind the last record. */
  lemma RecordsEnd(file: seq<byte>, recs: seq<Rec>, hash: seq<byte> -> u32)
    requires IsCdb(file, recs, hash)
    ensures HEADER <= |file| && U32At(file, 0) == RecPos(recs, |recs|)
  {
    hide RecordAt, TableAt, IsTable, RecPos, U32At;
    var tabs, tpos :| IsCdbWith(file, recs, hash, tabs, tpos);
    assert BucketOk(file, recs, hash, tabs[0], tpos, 0);
  }

  /** The walk's first results are the records in write order, and it stops there
      exactly when the file passes the test. */
  lemma WalkCorrect(file: seq<byte>, recs: seq<Rec>, hash: seq<byte> -> u32)
    requires IsCdb(file, recs, hash)
    requires forall k :: 0 <= k < |recs| ==> Walkable(recs[k])
    ensures Steps(recs, 0) <= Dump(file, HEADER)
    ensures Dump(file, HEADER) == Steps(recs, 0) <==> Stops(file)
  {
    hide IsCdbWith, DumpNext, Walkable, Stops;
    RecordsEnd(file, recs, hash);
    StopsNext(file);
    var tabs, tpos :| IsCdbWith(file, recs, hash, tabs, tpos);
    DumpFrom(file, recs, hash, tabs, tpos, 0);
  }

  /** The test is passed whenever some key hashes to bucket 0: its table comes first,
      and every slot of it begins with a zero byte. */
  lemma BucketZeroStops(file: seq<byte>, recs: seq<Rec>, hash: seq<byte> -> u32, i: nat)
    requires IsCdb(file, recs, hash) && i < |recs| && hash(recs[i].key) % 256 == 0
    ensures Stops(file)
  {
    hide RecordAt, RecPos;
    var tabs, tpos :| IsCdbWith(file, recs, hash, tabs, tpos);
    var es := Bucket(Hps(recs, hash), 0);
    assert BucketOk(file, recs, hash, tabs[0], tpos, 0);
    assert Hps(recs, hash)[i] in es by {
      BucketMember(Hps(recs, hash), 0, Hps(recs, hash)[i]);
    }
    ZeroSlot(file, tpos[0], tabs[0], es, Hps(recs, hash));
  }

  lemma ZeroSlot(file: seq<byte>, p: nat, tab: seq<Hp>, es: seq<Hp>, all: seq<Hp>)
    requires TableAt(file, p, tab) && IsTable(tab, es) && es == Bucket(all, 0) && es != []
    ensures p + 8 <= |file| && file[p] == 0
  {
    hide Bucket, Home;
    var at :| Probed(tab, es, at);
    if tab[0] != CdbFormat.EMPTY {
      var j :| 0 <= j < |at| && at[j] == 0;
      BucketMember(all, 0, es[j]);
    }
    assert U32At(file, p + 8 * 0) == tab[0].h;
    LowByte(file, p);
  }

  lemma LowByte(file: seq<byte>, p: nat)
    requires p + 4 <= |file|
    ensures U32At(file, p) % 256 == file[p]
  {
  }

  /** Bytes of a packed number. */
  lemma PackedBytes(file: seq<byte>, p: nat, u: nat)
    requires p + 4 <= |file| && U32At(file, p) == u < 65536
    ensures file[p] == u % 256 && file[p + 1] == u / 256 && file[p + 2] == 0 && file[p + 3] == 0
  {
  }

  /** With a single entry the table's first probe is free, so it sits at home. */
  lemma SingleEntry(tab: seq<Hp>, e: Hp)
    requires IsTable(tab, [e]) && e.h == 514
    ensures |tab| == 2 && tab[0] == e
  {
    var at :| Probed(tab, [e], at);
    assert Home(e.h, 2) == 0;
    assert PavedTo([e], at, 2, 0);
    var D :| Path(Home(e.h, 2), D, at[0], at[..0], 2);
    var first := Slot(0, 0, 2);
    assert first !in at[..0];
  }

  /** A first slot that holds hash 514 and position 1024 reads as a record. */
  lemma SlotReadsAsRecord(file: seq<byte>, p: nat)
    requires p + 8 <= |file| && U32At(file, p) == 514 && U32At(file, p + 4) == 1024
    ensures DumpNext(file, p) == Some(Step([], Some([]), p + 8))
  {
    PackedBytes(file, p, 514);
    PackedBytes(file, p + 4, 1024);
    hide U32At;
    assert file[p + 4..p + 6] == [0, 4] && file[p + 6..p + 8] == [0, 0];
  }

  /** Only bucket 2 has a table, so it comes first and its entry sits in slot 0. */
  lemma FirstSlot(file: seq<byte>, r: Rec, hash: seq<byte> -> u32, tabs: seq<seq<Hp>>, tpos: seq<nat>)
    requires IsCdbWith(file, [r], hash, tabs, tpos) && hash(r.key) == 514
    ensures var p := RecPos([r], 1);
            p + 8 <= |file| && U32At(file, p) == 514 && U32At(file, p + 4) == 1024
  {
    hide RecordAt, IsTable, RecPos, U32At, Bucket, Home;
    var e := Hp(514, RecPos([r], 0));
    assert Hps([r], hash) == [e];
    BucketOne(e, 0);
    BucketOne(e, 1);
    BucketOne(e, 2);
    assert BucketOk(file, [r], hash, tabs[0], tpos, 0);
    EmptyIsEmpty(tabs[0]);
    assert BucketOk(file, [r], hash, tabs[1], tpos, 1);
    EmptyIsEmpty(tabs[1]);
    assert BucketOk(file, [r], hash, tabs[2], tpos, 2);
    SingleEntry(tabs[2], e);
    FirstPos([r]);
    var p := RecPos([r], 1);
    assert p == tpos[2];
    assert U32At(file, p + 8 * 0) == 514 && U32At(file, p + 8 * 0 + 4) == 1024;
  }

  /** Stopping is not automatic: a single record hashed to 514 leaves a table whose
      first slot reads as one more record, with an empty key and an empty value. */
  lemma WalkOverruns(file: seq<byte>, r: Rec, hash: seq<byte> -> u32)
    requires IsCdb(file, [r], hash) && hash(r.key) == 514
    ensures DumpNext(file, RecPos([r], 1)) == Some(Step([], Some([]), RecPos([r], 1) + 8)) && !Stops(file)
  {
    hide IsCdbWith, DumpNext, Stops;
    RecordsEnd(file, [r], hash);
    StopsNext(file);
    var tabs, tpos :| IsCdbWith(file, [r], hash, tabs, tpos);
    FirstSlot(file, r, hash, tabs, tpos);
    SlotReadsAsRecord(file, RecPos([r], 1));
  }

  // --- two small files, byte by byte ---

  /** The header when only bucket 2 has a table, of `n` bytes at `p`. */
  function HeaderByte(p: u32, n: nat, i: nat): byte
    requires p + n < TWO32
  {
    Pack32(if i / 4 <= 2 then p else p + n)[i % 4]
  }

  function FileWith(p: u32, n: nat, body: seq<byte>): (file: seq<byte>)
    requires p + n < TWO32
    ensures |file| == HEADER + |body|
  {
    seq(HEADER, i requires 0 <= i => HeaderByte(p, n, i)) + body
  }

  lemma HeaderEntry(p: u32, n: nat, body: seq<byte>, b: nat)
    requires p + n < TWO32 && b < 256
    ensures U32At(FileWith(p, n, body), 4 * b) == if b <= 2 then p else p + n
  {
    var file, u := FileWith(p, n, body), if b <= 2 then p else p + n;
    hide U32At, Pack32;
    forall k | 0 <= k < 4
      ensures file[4 * b + k] == Pack32(u)[k]
    {
      assert (4 * b + k) / 4 == b && (4 * b + k) % 4 == k;
    }
    assert file[4 * b..4 * b + 4] == Pack32(u);
    PackRoundTrip(file, 4 * b, u);
  }

  /** The database without records: 256 times the end of the header. */
  lemma EmptyFile(hash: seq<byte> -> u32)
    ensures IsCdb(FileWith(HEADER, 0, []), [], hash)
  {
    var file := FileWith(HEADER, 0, []);
    var tabs, tpos := seq(256, _ => []), seq(257, _ => HEADER);
    hide FileWith, U32At;
    forall b | 0 <= b < 256
      ensures BucketOk(file, [], hash, tabs[b], tpos, b)
    {
      HeaderEntry(HEADER, 0, [], b);
      assert Probed([], [], []);
    }
    assert IsCdbWith(file, [], hash, tabs, tpos);
  }

  const ONE := Rec([97], [98])

  /** The record a=b, then a table of two slots with hash 514 and position 1024 in the
      first. */
  const ONE_BODY: seq<byte> := [2, 2, 0, 0, 97, 0, 98, 0, 2, 2, 0, 0, 0, 4, 0, 0, 0, 0, 0, 0, 0, 0, 0, 0]

  lemma OneTable(file: seq<byte>)
    requires file == FileWith(HEADER + 8, 16, ONE_BODY)
    ensures RecordAt(file, HEADER, ONE) && TableAt(file, HEADER + 8, [Hp(514, HEADER), CdbFormat.EMPTY])
  {
    hide FileWith;
    BodyAt(file);
    var b := ONE_BODY;
    assert file[HEADER] == b[0] && file[HEADER + 1] == b[1] && file[HEADER + 2] == b[2] && file[HEADER + 3] == b[3];
    assert file[1028] == b[4] && file[1029] == b[5] && file[1030] == b[6] && file[1031] == b[7];
    assert file[1028..1030] == [97, 0] && file[1030..1032] == [98, 0];
    var tab := [Hp(514, HEADER), CdbFormat.EMPTY];
    forall s | 0 <= s < 2
      ensures U32At(file, HEADER + 8 + 8 * s) == tab[s].h && U32At(file, HEADER + 8 + 8 * s + 4) == tab[s].p
    {
      if s == 0 {
        assert file[1032] == b[8] && file[1033] == b[9] && file[1034] == b[10] && file[1035] == b[11];
        assert file[1036] == b[12] && file[1037] == b[13] && file[1038] == b[14] && file[1039] == b[15];
      } else {
        assert file[1040] == b[16] && file[1041] == b[17] && file[1042] == b[18] && file[1043] == b[19];
        assert file[1044] == b[20] && file[1045] == b[21] && file[1046] == b[22] && file[1047] == b[23];
      }
    }
  }

  lemma BodyAt(file: seq<byte>)
    requires file == FileWith(HEADER + 8, 16, ONE_BODY)
    ensures |file| == HEADER + 24 && forall i :: 0 <= i < 24 ==> file[HEADER + i] == ONE_BODY[i]
  {
  }

  /** A complete database of one record whose hash is 514: the walk over it does not
      stop behind the record. */
  lemma OverrunFile(hash: seq<byte> -> u32)
    requires hash(ONE.key) == 514
    ensures IsCdb(FileWith(HEADER + 8, 16, ONE_BODY), [ONE], hash) && !Stops(FileWith(HEADER + 8, 16, ONE_BODY))
  {
    hide Stops, FileWith, U32At, RecordAt, Bucket, TableAt;
    var file := FileWith(HEADER + 8, 16, ONE_BODY);
    var e := Hp(514, HEADER);
    var tab := [e, CdbFormat.EMPTY];
    var tabs := seq(256, b => if b == 2 then tab else []);
    var tpos := seq(257, b => if b <= 2 then HEADER + 8 else HEADER + 24);
    OneTable(file);
    BodyAt(file);
    assert RecPos([ONE], 0) == HEADER && RecPos([ONE], 1) == HEADER + 8;
    assert Hps([ONE], hash) == [e];
    forall b | 0 <= b < 256
      ensures BucketOk(file, [ONE], hash, tabs[b], tpos, b)
    {
      HeaderEntry(HEADER + 8, 16, ONE_BODY, b);
      BucketOne(e, b);
      if b == 2 {
        TabOne(tab, e);
      } else {
        assert Probed([], [], []);
        NoTable(file, tpos[b]);
      }
    }
    assert IsCdbWith(file, [ONE], hash, tabs, tpos);
    WalkOverruns(file, ONE, hash);
  }

  lemma BucketOne(e: Hp, b: nat)
    requires e.h == 514
    ensures Bucket([e], b) == if b == 2 then [e] else []
  {
    assert [e][..0] == [];
  }

  lemma TabOne(tab: seq<Hp>, e: Hp)
    requires tab == [e, CdbFormat.EMPTY] && e.h == 514
    ensures IsTable(tab, [e])
  {
    var at: seq<nat> := [0];
    assert Home(514, 2) == 0;
    assert Path(Home([e][0].h, 2), 0, at[0], at[..0], 2);
    assert PavedTo([e], at, 2, 0);
    assert Probed(tab, [e], at);
  }

  lemma EmptyIsEmpty(tab: seq<Hp>)
    requires IsTable(tab, [])
    ensures tab == []
  {
  }

  lemma FirstPos(recs: seq<Rec>)
    ensures RecPos(recs, 0) == HEADER
  {
  }

  // --- writer and reader together ---

  ghost predicate AllStorable(recs: seq<Rec>) {
    forall i :: 0 <= i < |recs| ==> Storable(recs[i])
  }

  /** Records that fit the format: each within its length bytes, records and tables within
      32-bit positions, and the entries within what the writer can allocate. */
  ghost predicate Buildable(recs: seq<Rec>, hash: seq<byte> -> u32) {
    AllStorable(recs) && RecPos(recs, |recs|) + 16 * |recs| < TWO32 && ScratchFits(Hps(recs, hash))
  }

  lemma NoneStorable()
    ensures AllStorable([])
  {
  }

  lemma BuildableAt(recs: seq<Rec>, hash: seq<byte> -> u32, i: nat)
    requires i < |recs|
    ensures Buildable(recs, hash) ==> Storable(recs[i]) && RecPos(recs, i) + RecSize(recs[i]) < TWO32
    ensures RecPos(recs, i + 1) == RecPos(recs, i) + RecSize(recs[i])
    ensures AllStorable(recs[..i]) && Storable(recs[i]) ==> AllStorable(recs[..i + 1])
  {
    hide Hps, ScratchFits, Storable;
    RecPosMonotone(recs, i, |recs|);
  }

  /** Open a file, add every record, finish. That works exactly when no call fails and the
      records fit the format. */
  method Build(hash: seq<byte> -> u32, recs: seq<Rec>, sys: System) returns (ok: bool, file: seq<byte>)
    modifies sys
    ensures ok ==> IsCdb(file, recs, hash)
    ensures ok <==> sys.faults == old(sys.faults) && Buildable(recs, hash)
  {
    hide Storable, IsCdb, RecPos, Hps, ScratchFits, AllStorable, CdbMake.Valid;
    file := [];
    FirstPos(recs);
    NoneStorable();
    var out := new OutFile(sys);
    ok := out.Seek(HEADER);
    if !ok {
      return;
    }
    var m := new CdbMake(hash, out);
    assert recs[..0] == [];
    for i := 0 to |recs|
      invariant m.Valid() && m.recs == recs[..i] && m.b.file == out && m.hash == hash
      invariant sys.faults == old(sys.faults) && AllStorable(recs[..i]) && m.pos == RecPos(recs, i)
      invariant fresh(m) && fresh(m.b) && fresh(m.b.x) && fresh(m.count) && fresh(m.start) && fresh(m.final)
    {
      assert recs[..i + 1] == recs[..i] + [recs[i]];
      assert recs[i] == Rec(recs[i].key, recs[i].data);
      BuildableAt(recs, hash, i);
      ok := m.Add(recs[i].key, recs[i].data);
      if !ok {
        return;
      }
    }
    assert recs[..|recs|] == recs;
    ok := m.Finish();
    file := out.data;
  }

  /** A whole run: build a database, map it and look a key up. If the writer's
      calls all succeed the key is found exactly when it was added, with the data
      of its first record. */
  method BuildAndFind(hash: seq<byte> -> u32, recs: seq<Rec>, key: seq<byte>, sys: System)
    returns (ok: bool, r: int, data: seq<byte>)
    requires |key| + 1 < TWO32
    modifies sys
    ensures ok <==> sys.faults == old(sys.faults) && Buildable(recs, hash)
    ensures ok ==> r == if FirstIndex(recs, key) < |recs| then 1 else 0
    ensures ok && r == 1 ==> data == recs[FirstIndex(recs, key)].data + [0]
  {
    hide IsCdb, Lookup, Buildable;
    r, data := 0, [];
    var file;
    ok, file := Build(hash, recs, sys);
    if ok {
      LookupCorrect(file, recs, hash, key);
      Sized(file, recs, hash);
      var db := new Cdb(3, file);
      r := db.FindNext(hash(key), key);
      if r == 1 {
        data := db.image[db.dpos..db.dpos + db.dlen];
      }
    }
  }

  lemma Sized(file: seq<byte>, recs: seq<Rec>, hash: seq<byte> -> u32)
    requires IsCdb(file, recs, hash)
    ensures HEADER <= |file| < TWO32
  {
  }
}
