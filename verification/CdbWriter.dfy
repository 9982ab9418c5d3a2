/**
 src/cdb_make.c: streaming records into a constant database. A successful run
 of adds followed by a successful finish leaves a file that CdbFormat.IsCdb
 accepts for exactly the records added, in order.
 */
module CdbWriter {
  import opened Bytes
  import opened Buffers
  import opened CdbFormat
  import opened CdbTables

  const CDB_HPLIST: nat := 1000
  const BSPACE: nat := 8192
  const MAX_SLOTS: nat := 0xffff_ffff / 8

  /** `struct cdb_hplist`: blocks of up to 1000 entries, newest block first. */
  datatype HpList = Nil | Block(hp: seq<Hp>, next: HpList)

  /** The entries of a block list, oldest first. */
  ghost function Flatten(l: HpList): seq<Hp> {
    match l
    case Nil => []
    case Block(hp, next) => Flatten(next) + hp
  }

  /** No block outgrows its array. */
  predicate Chunked(l: HpList) {
    l.Block? ==> 1 <= |l.hp| <= CDB_HPLIST && Chunked(l.next)
  }

  function Push(l: HpList, e: Hp): (r: HpList)
    requires Chunked(l)
    ensures Chunked(r) && Flatten(r) == Flatten(l) + [e]
  {
    if l.Nil? || |l.hp| >= CDB_HPLIST then Block([e], l)
    else
      Assoc(Flatten(l.next), l.hp, [e]);
      Block(l.hp + [e], l.next)
  }

  /** The counters agree with the entries, and the scratch space suffices. */
  ghost predicate Tally(es: seq<Hp>, count: seq<nat>, memsize: nat) {
    && |count| == 256
    && 1 <= memsize <= 2 * |es| + 1 && Reached(count, memsize)
    && forall i :: 0 <= i < 256 ==> count[i] == |Bucket(es, i)| && 2 * count[i] <= memsize
  }

  lemma TallyPush(es: seq<Hp>, count: seq<nat>, memsize: nat, e: Hp)
    requires Tally(es, count, memsize)
    ensures var b := e.h % 256;
            var u := 2 * (count[b] + 1);
            Tally(es + [e], count[b := count[b] + 1], if u > memsize then u else memsize)
  {
    hide Bucket, Reached;
    var b := e.h % 256;
    BucketBound(es, b);
    forall i | 0 <= i < 256
      ensures |Bucket(es + [e], i)| == |Bucket(es, i)| + if i == b then 1 else 0
    {
      BucketSnoc(es, e, i);
    }
    ReachedPush(count, memsize, b);
  }

  /** The scratch table is no larger than some bucket needs. */
  ghost predicate Reached(count: seq<nat>, memsize: nat) {
    memsize == 1 || exists i :: 0 <= i < |count| && memsize == 2 * count[i]
  }

  lemma ReachedPush(count: seq<nat>, memsize: nat, b: nat)
    requires Reached(count, memsize) && b < |count|
    ensures var u := 2 * (count[b] + 1); Reached(count[b := count[b] + 1], if u > memsize then u else memsize)
  {
    var now := count[b := count[b] + 1];
    if 2 * now[b] > memsize {
      assert 2 * now[b] == 2 * (count[b] + 1);
    } else if memsize != 1 {
      var i :| 0 <= i < |count| && memsize == 2 * count[i];
      assert now[i] == count[i];
    }
  }

  lemma BucketBound(es: seq<Hp>, b: nat)
    ensures |Bucket(es, b)| <= |es|
  {
  }

  /** The stream after the header holds exactly the records. */
  ghost predicate Written(out: seq<byte>, recs: seq<Rec>) {
    && |out| + HEADER == RecPos(recs, |recs|)
    && forall i :: 0 <= i < |recs| ==> WrittenAt(out, recs, i)
  }

  ghost predicate WrittenAt(out: seq<byte>, recs: seq<Rec>, i: nat)
    requires i < |recs|
  {
    Storable(recs[i]) && RecordAt(out, RecPos(recs, i) - HEADER, recs[i])
  }

  lemma WrittenPush(out: seq<byte>, recs: seq<Rec>, r: Rec)
    requires Written(out, recs) && Storable(r)
    ensures Written(out + KvLen(|r.key| + 1, |r.data| + 1) + (r.key + [0]) + (r.data + [0]), recs + [r])
    ensures RecPos(recs + [r], |recs| + 1) == RecPos(recs, |recs|) + RecSize(r)
  {
    hide RecordAt, RecPos, KvLen;
    var a, b, c := KvLen(|r.key| + 1, |r.data| + 1), r.key + [0], r.data + [0];
    RecordPut(out, r);
    Assoc(out, a, b);
    Assoc(out, a + b, c);
    WrittenMore(out, a + b + c, recs, r);
  }

  lemma WrittenMore(out: seq<byte>, more: seq<byte>, recs: seq<Rec>, r: Rec)
    requires Written(out, recs) && Storable(r)
    requires |more| == RecSize(r) && RecordAt(out + more, |out|, r)
    ensures Written(out + more, recs + [r])
    ensures RecPos(recs + [r], |recs| + 1) == RecPos(recs, |recs|) + RecSize(r)
  {
    hide RecordAt, RecPos, RecSize, WrittenAt, Storable;
    var all, rs := out + more, recs + [r];
    assert rs[|recs|] == r;
    RecPosPrefix(recs, [r], |recs|);
    RecPosNext(rs, |recs|);
    forall i | 0 <= i < |rs|
      ensures WrittenAt(all, rs, i)
    {
      WrittenAtMore(out, more, recs, r, i);
    }
  }

  lemma WrittenAtMore(out: seq<byte>, more: seq<byte>, recs: seq<Rec>, r: Rec, i: nat)
    requires i <= |recs| && |out| + HEADER == RecPos(recs, |recs|)
    requires if i < |recs| then WrittenAt(out, recs, i) else Storable(r) && RecordAt(out + more, |out|, r)
    ensures WrittenAt(out + more, recs + [r], i)
  {
    hide RecordAt, RecPos, RecSize;
    RecPosPrefix(recs, [r], i);
    if i < |recs| {
      RecordAppend(out, more, RecPos(recs, i) - HEADER, recs[i]);
    }
  }

  lemma RecPosNext(recs: seq<Rec>, i: nat)
    requires i < |recs|
    ensures RecPos(recs, i + 1) == RecPos(recs, i) + RecSize(recs[i])
  {
  }

  /** The tables of the buckets before `b` have been put and noted in the header. */
  ghost predicate Tabled(out: seq<byte>, final: seq<byte>, es: seq<Hp>, base: nat, tabs: seq<seq<Hp>>, tpos: seq<nat>,
                         b: nat) {
    && b <= 256 && |tabs| == b && |tpos| == b + 1 && |final| == HEADER
    && tpos[0] == base && tpos[b] == |out| + HEADER
    && forall c :: 0 <= c < b ==> TabledAt(out, final, es, tabs, tpos, c)
  }

  ghost predicate TabledAt(out: seq<byte>, final: seq<byte>, es: seq<Hp>, tabs: seq<seq<Hp>>, tpos: seq<nat>, c: nat)
    requires c < 256 && c < |tabs| && c + 1 < |tpos| && |final| == HEADER
  {
    && HEADER <= tpos[c]
    && U32At(final, 4 * c) == tpos[c]
    && tpos[c + 1] == tpos[c] + 8 * |tabs[c]|
    && TableAt(out, tpos[c] - HEADER, tabs[c])
    && IsTable(tabs[c], Bucket(es, c))
  }

  /** One more table: its position goes into the header, its slots to the stream. */
  lemma TabledPush(out: seq<byte>, final: seq<byte>, es: seq<Hp>, base: nat, tabs: seq<seq<Hp>>, tpos: seq<nat>, b: nat,
                   final': seq<byte>, more: seq<byte>, tab: seq<Hp>)
    requires Tabled(out, final, es, base, tabs, tpos, b) && b < 256
    requires |out| + HEADER < TWO32
    requires |final'| == HEADER && final'[4 * b..4 * b + 4] == Pack32(|out| + HEADER)
    requires forall k :: 0 <= k < 4 * b ==> final'[k] == final[k]
    requires |more| == 8 * |tab| && TableAt(out + more, |out|, tab) && IsTable(tab, Bucket(es, b))
    ensures Tabled(out + more, final', es, base, tabs + [tab], tpos + [|out| + HEADER + 8 * |tab|], b + 1)
  {
    hide TableAt, IsTable, Bucket, Pack32;
    var tabs', tpos' := tabs + [tab], tpos + [|out| + HEADER + 8 * |tab|];
    forall c | 0 <= c < b + 1
      ensures TabledAt(out + more, final', es, tabs', tpos', c)
    {
      if c < b {
        assert TabledAt(out, final, es, tabs, tpos, c);
        TableAppend(out, more, tpos[c] - HEADER, tabs[c]);
        assert U32At(final', 4 * c) == U32At(final, 4 * c);
      } else {
        PackRoundTrip(final', 4 * b, |out| + HEADER);
      }
    }
  }

  /** Header in front of the stream: the finished file. */
  lemma Complete(final: seq<byte>, out: seq<byte>, recs: seq<Rec>, hash: seq<byte> -> u32, body: seq<byte>,
                 tabs: seq<seq<Hp>>, tpos: seq<nat>)
    requires Written(body, recs) && body <= out && |out| + HEADER < TWO32
    requires Tabled(out, final, Hps(recs, hash), RecPos(recs, |recs|), tabs, tpos, 256)
    ensures IsCdb(final + out, recs, hash)
  {
    hide RecordAt, RecPos, TableAt, IsTable, Bucket, Hps;
    var file := final + out;
    forall i | 0 <= i < |recs|
      ensures Storable(recs[i]) && RecordAt(file, RecPos(recs, i), recs[i])
    {
      assert WrittenAt(body, recs, i);
      assert out == body + out[|body|..];
      RecordAppend(body, out[|body|..], RecPos(recs, i) - HEADER, recs[i]);
      RecordShift(final, out, RecPos(recs, i) - HEADER, recs[i]);
    }
    forall b | 0 <= b < 256
      ensures BucketOk(file, recs, hash, tabs[b], tpos, b)
    {
      assert TabledAt(out, final, Hps(recs, hash), tabs, tpos, b);
      TableShift(final, out, tpos[b] - HEADER, tabs[b]);
      assert U32At(file, 4 * b) == U32At(final, 4 * b);
    }
    assert IsCdbWith(file, recs, hash, tabs, tpos);
  }

  // --- the scratch array of cdb_make_finish ---

  /** Prefix sums of the counters: `start[b]` is one past the end of bucket `b`. */
  method BucketEnds(count: array<nat>, start: array<nat>, ghost es: seq<Hp>)
    requires count.Length == 256 && start.Length == 256 && count != start
    requires forall i :: 0 <= i < 256 ==> count[i] == |Bucket(es, i)|
    modifies start
    ensures forall i :: 0 <= i < 256 ==> start[i] == Below(es, i + 1)
  {
    hide Bucket;
    var u := 0;
    for i := 0 to 256
      invariant u == Below(es, i)
      invariant forall k :: 0 <= k < i ==> start[k] == Below(es, k + 1)
    {
      u := u + count[i];
      start[i] := u;
    }
  }

  /** Counting sort, newest entry first, so that each bucket keeps the order of
      the adds. */
  method Distribute(head: HpList, start: array<nat>, split: array<Hp>, ghost es: seq<Hp>)
    requires start.Length == 256 && split.Length >= |es| && Flatten(head) == es
    requires forall i :: 0 <= i < 256 ==> start[i] == Below(es, i + 1)
    modifies start, split
    ensures Regions(es, es, start[..], split[..])
  {
    hide Bucket, Below, Region;
    ghost var done: seq<Hp> := [];
    RegionsStart(es, start[..], split[..]);
    var x := head;
    assert es == Flatten(x) + done;
    while x.Block?
      invariant es == Flatten(x) + done
      invariant Regions(es, done, start[..], split[..])
      decreases x
    {
      var i := |x.hp|;
      assert x.hp[..i] == x.hp;
      while i > 0
        invariant 0 <= i <= |x.hp|
        invariant es == Flatten(x.next) + x.hp[..i] + done
        invariant Regions(es, done, start[..], split[..])
      {
        i := i - 1;
        var e := x.hp[i];
        var b := e.h % 256;
        assert x.hp[..i + 1] == x.hp[..i] + [e];
        Regroup(Flatten(x.next), x.hp[..i], e, done);
        DistributeStep(es, Flatten(x.next) + x.hp[..i], e, done, start[..], split[..]);
        ghost var st, sp := start[..], split[..];
        start[b] := start[b] - 1;
        split[start[b]] := e;
        assert start[..] == st[b := st[b] - 1] && split[..] == sp[st[b] - 1 := e];
        done := [e] + done;
      }
      assert x.hp[..0] == [];
      x := x.next;
      assert Flatten(x) + [] == Flatten(x);
    }
    assert [] + done == done;
  }

  lemma Regroup(a: seq<Hp>, b: seq<Hp>, e: Hp, c: seq<Hp>)
    ensures a + (b + [e]) + c == a + b + ([e] + c)
  {
    Assoc(a, b, [e]);
    Assoc(a + b, [e], c);
  }

  lemma BucketNone(b: nat)
    ensures Bucket([], b) == []
  {
  }

  lemma RegionsStart(es: seq<Hp>, st: seq<nat>, sp: seq<Hp>)
    requires |st| == 256 && |sp| >= |es|
    requires forall i :: 0 <= i < 256 ==> st[i] == Below(es, i + 1)
    ensures Regions(es, [], st, sp)
  {
    hide Below, Bucket;
    forall b | 0 <= b < 256
      ensures Region(es, [], st, sp, b)
    {
      BelowTotal(es);
      BucketNone(b);
      BelowMonotone(es, b, b + 1);
      BelowMonotone(es, b + 1, 256);
    }
  }

  /** Linear probing for one bucket, in the upper part of the scratch array. */
  method BuildTable(split: array<Hp>, off: nat, len: nat, from: nat, cnt: nat, ghost es: seq<Hp>)
    requires len == 2 * cnt && off + len <= split.Length && from + cnt <= off
    requires split[from..from + cnt] == es
    requires forall e :: e in es ==> e.p != 0
    modifies split
    ensures IsTable(split[off..off + len], es)
    ensures forall k :: 0 <= k < off ==> split[k] == old(split[k])
  {
    for u := 0 to len
      invariant forall k :: off <= k < off + u ==> split[k] == EMPTY
      invariant forall k :: 0 <= k < off ==> split[k] == old(split[k])
    {
      split[off + u] := EMPTY;
    }
    ghost var at: seq<nat> := [];
    EmptyTable(split[off..off + len]);
    assert es[..0] == [];
    for u := 0 to cnt
      invariant |at| == u && Probed(split[off..off + len], es[..u], at)
      invariant forall k :: 0 <= k < off ==> split[k] == old(split[k])
    {
      var e := split[from + u];
      assert e == es[u];
      at := Insert(split, off, len, e, es[..u], at);
      assert es[..u + 1] == es[..u] + [e];
    }
    assert es[..cnt] == es;
  }

  lemma EmptyTable(tab: seq<Hp>)
    requires forall k :: 0 <= k < |tab| ==> tab[k] == EMPTY
    ensures Probed(tab, [], [])
  {
  }

  /** The inner loop: step from the entry's home to the first free slot. */
  method Insert(split: array<Hp>, off: nat, len: nat, e: Hp, ghost es: seq<Hp>, ghost at: seq<nat>)
    returns (ghost at': seq<nat>)
    requires off + len <= split.Length && |es| < len
    requires Probed(split[off..off + len], es, at) && (forall x :: x in es ==> x.p != 0)
    modifies split
    ensures |at'| == |at| + 1 && Probed(split[off..off + len], es + [e], at')
    ensures forall k :: 0 <= k < off ==> split[k] == old(split[k])
  {
    hide Home, Probed, Seated, Paved;
    ghost var tab := split[off..off + len];
    ghost var home := Home(e.h, len);
    ghost var free := FreeInTable(tab, es, at);
    var where := e.h / 256 % len;
    assert where == home by {
      HomeIs(e.h, len);
    }
    ghost var d: nat := 0;
    while split[off + where].p != 0
      invariant d <= Steps(home, free, len) && where == Slot(home, d, len)
      invariant Occupied(tab, home, d)
      invariant split[off..off + len] == tab && forall k :: 0 <= k < off ==> split[k] == old(split[k])
      decreases len - d
    {
      assert tab[where] == split[off + where];
      assert where != free;
      where := where + 1;
      if where == len {
        where := 0;
      }
      d := d + 1;
    }
    assert tab[where] == split[off + where];
    EmptySlot(tab, es, at, where);
    InsertProbed(tab, es, at, e, d);
    split[off + where] := e;
    at' := at + [where];
    assert split[off..off + len] == tab[where := e];
  }

  lemma HomeIs(h: nat, len: nat)
    requires len > 0
    ensures Home(h, len) == h / 256 % len
  {
  }

  lemma FreeInTable(tab: seq<Hp>, es: seq<Hp>, at: seq<nat>) returns (f: nat)
    requires Probed(tab, es, at) && |es| < |tab|
    ensures f < |tab| && tab[f] == EMPTY
  {
    f := FreeSlot(at, |tab|);
  }

  lemma EmptySlot(tab: seq<Hp>, es: seq<Hp>, at: seq<nat>, w: nat)
    requires Probed(tab, es, at) && w < |tab| && tab[w].p == 0 && forall x :: x in es ==> x.p != 0
    ensures tab[w] == EMPTY && EMPTY !in es
  {
  }

  /** `ut32_pack` into the header. */
  method PackInto(final: array<byte>, k: nat, u: u32)
    requires k + 4 <= final.Length
    modifies final
    ensures final[k..k + 4] == Pack32(u)
    ensures forall i :: 0 <= i < k ==> final[i] == old(final[i])
  {
    var s := Pack32(u);
    final[k], final[k + 1], final[k + 2], final[k + 3] := s[0], s[1], s[2], s[3];
    assert final[k..k + 4] == s;
  }

  class CdbMake {
    const hash: seq<byte> -> u32
    const b: Buffer
    const final: array<byte>
    const count: array<nat>
    const start: array<nat>
    var head: HpList
    var numentries: nat
    var memsize: nat
    var pos: nat
    ghost var recs: seq<Rec>

    ghost predicate Shape()
      reads this, b
    {
      && final.Length == HEADER && count.Length == 256 && start.Length == 256
      && count != start && final != b.x
      && count as object != final && count as object != b.x && start as object != final && start as object != b.x
      && b.Valid()
    }

    /** The builder's invariant: stream, entries, counters and position all tell
        the story of the records added so far. */
    ghost predicate Valid()
      reads this, b, b.x, b.file, count
    {
      && Shape()
      && Streaming(b.file.data, b.file.at, HEADER)
      && Written(b.Out(HEADER), recs)
      && pos == RecPos(recs, |recs|) < TWO32
      && Chunked(head) && Flatten(head) == Hps(recs, hash)
      && numentries == |recs|
      && Tally(Hps(recs, hash), count[..], memsize)
    }

    /** `cdb_make_start` on a truncated file whose seek past the header succeeded. */
    constructor (hash: seq<byte> -> u32, file: OutFile)
      requires file.data == [] && file.at == HEADER
      ensures Valid() && recs == [] && b.file == file && this.hash == hash && pos == HEADER
              && file.sys.faults == old(file.sys.faults)
      ensures fresh(b) && fresh(b.x) && fresh(count) && fresh(start) && fresh(final)
    {
      this.hash := hash;
      b := new Buffer(file, BSPACE);
      final := new byte[HEADER](_ => 0);
      count := new nat[256](_ => 0);
      start := new nat[256](_ => 0);
      head, numentries, memsize, pos, recs := Nil, 0, 1, HEADER, [];
      new;
      assert Hps([], hash) == [];
    }

    /** `incpos`: advance unless the 32-bit position wraps. */
    method IncPos(len: u32) returns (ok: bool)
      requires pos < TWO32
      modifies `pos
      ensures ok <==> old(pos) + len < TWO32
      ensures pos == if ok then old(pos) + len else old(pos)
    {
      var newpos := Wrap(pos + len);
      if newpos < len {
        return false;
      }
      pos := newpos;
      return true;
    }

    /** `cdb_make_addend`: note the entry and step past the record. */
    method AddEnd(keylen: nat, datalen: nat, h: u32) returns (ok: bool)
      requires keylen <= MAX_KEY && datalen < MAX_VALUE && pos < TWO32
      requires Shape() && Chunked(head) && Tally(Flatten(head), count[..], memsize)
      modifies `head, `numentries, `memsize, `pos, count, b.file.sys
      ensures old(b.file.sys.faults) <= b.file.sys.faults
      ensures ok <==> b.file.sys.faults == old(b.file.sys.faults) && old(pos) + KVLSZ + keylen + datalen < TWO32
      ensures ok ==> pos == old(pos) + KVLSZ + keylen + datalen < TWO32
      ensures ok ==> Chunked(head) && Flatten(head) == old(Flatten(head)) + [Hp(h, old(pos))]
      ensures ok ==> numentries == old(numentries) + 1 && Tally(Flatten(head), count[..], memsize)
    {
      hide Tally, Flatten;
      if head.Nil? || |head.hp| >= CDB_HPLIST {
        ok := b.file.sys.Try();
        if !ok {
          return;
        }
      }
      ghost var es, cs, ms := Flatten(head), count[..], memsize;
      TallyPush(es, cs, ms, Hp(h, pos));
      TallyLength(es, cs, ms);
      head := Push(head, Hp(h, pos));
      numentries := numentries + 1;
      count[h % 256] := count[h % 256] + 1;
      var u := count[h % 256] * 2;
      if u > memsize {
        memsize := u;
      }
      assert count[..] == cs[h % 256 := cs[h % 256] + 1];
      ok := IncPos(KVLSZ + keylen + datalen);
    }

    /** `cdb_make_add`. Success adds exactly this record; a key or value that does
        not fit the length bytes is turned down before anything is written. */
    method Add(key: seq<byte>, data: seq<byte>) returns (ok: bool)
      requires Valid()
      modifies `head, `numentries, `memsize, `pos, `recs, count, b`p, b.x, b.file, b.file.sys
      ensures ok ==> Valid() && recs == old(recs) + [Rec(key, data)] && Storable(Rec(key, data))
                     && pos == old(pos) + RecSize(Rec(key, data))
      ensures !Storable(Rec(key, data)) ==> !ok && Valid() && recs == old(recs)
      ensures old(b.file.sys.faults) <= b.file.sys.faults
      ensures ok <==> Storable(Rec(key, data)) && old(pos) + RecSize(Rec(key, data)) < TWO32
                      && b.file.sys.faults == old(b.file.sys.faults)
    {
      hide Written, Tally, Hps, RecPos, Streaming, Flatten, Chunked, Buffer.Out;
      var r := Rec(key, data);
      if !Storable(r) {
        return false;
      }
      ghost var out := b.Out(HEADER);
      ok := b.PutAlign(KvLen(|key| + 1, |data| + 1), HEADER);
      if !ok {
        return;
      }
      ok := b.PutAlign(key + [0], HEADER);
      if !ok {
        return;
      }
      ok := b.PutAlign(data + [0], HEADER);
      if !ok {
        return;
      }
      WrittenPush(out, recs, r);
      HpsAppend(recs, r, hash);
      ok := AddEnd(|key| + 1, |data| + 1, hash(key));
      recs := recs + [r];
    }

    /** Writes one finished table slot by slot. */
    method PutTable(split: array<Hp>, off: nat, len: nat) returns (ok: bool)
      requires Shape() && Streaming(b.file.data, b.file.at, HEADER)
      requires off + len <= split.Length && pos == |b.Out(HEADER)| + HEADER < TWO32
      requires forall k :: off <= k < off + len ==> split[k].h < TWO32 && split[k].p < TWO32
      modifies `pos, b`p, b.x, b.file, b.file.sys
      ensures Shape()
      ensures old(b.file.sys.faults) <= b.file.sys.faults
      ensures ok <==> b.file.sys.faults == old(b.file.sys.faults) && old(pos) + 8 * len < TWO32
      ensures ok ==> Streaming(b.file.data, b.file.at, HEADER) && pos == |b.Out(HEADER)| + HEADER < TWO32
      ensures ok ==> old(b.Out(HEADER)) <= b.Out(HEADER) && |b.Out(HEADER)| == |old(b.Out(HEADER))| + 8 * len
      ensures ok ==> TableAt(b.Out(HEADER), |old(b.Out(HEADER))|, split[off..off + len])
    {
      hide Streaming, TableAt, Pack32, Buffer.Out;
      ghost var out := b.Out(HEADER);
      assert split[off..off + 0] == [];
      NoTable(out, |out|);
      for u := 0 to len
        invariant Shape() && Streaming(b.file.data, b.file.at, HEADER)
        invariant old(pos) + 8 * u == pos == |b.Out(HEADER)| + HEADER < TWO32
                  && b.file.sys.faults == old(b.file.sys.faults)
        invariant out <= b.Out(HEADER) && |b.Out(HEADER)| == |out| + 8 * u
        invariant TableAt(b.Out(HEADER), |out|, split[off..off + u])
      {
        var e := split[off + u];
        ghost var now := b.Out(HEADER);
        SlotAppend(now, |out|, split[off..off + u], e);
        ok := b.PutAlign(Pack32(e.h) + Pack32(e.p), HEADER);
        if !ok {
          return;
        }
        ok := IncPos(8);
        if !ok {
          return;
        }
        assert split[off..off + (u + 1)] == split[off..off + u] + [e];
        Prefixed(out, now, Pack32(e.h) + Pack32(e.p));
      }
      ok := true;
    }

    /** The table of bucket `i` in scratch space. */
    method BuildBucket(split: array<Hp>, i: nat, ghost es: seq<Hp>) returns (len: nat)
      requires Shape() && i < 256 && Tally(es, count[..], memsize) && memsize + numentries <= split.Length
      requires Regions(es, es, start[..], split[..numentries])
      requires forall e :: e in Bucket(es, i) ==> e.p != 0 && e.h < TWO32 && e.p < TWO32
      modifies split
      ensures split[..numentries] == old(split[..numentries])
      ensures len == 2 * |Bucket(es, i)| && numentries + len <= split.Length
      ensures IsTable(split[numentries..numentries + len], Bucket(es, i))
      ensures forall k :: numentries <= k < numentries + len ==> split[k].h < TWO32 && split[k].p < TWO32
    {
      hide Tally, Regions, Bucket, IsTable;
      ghost var sorted := split[..numentries];
      TallyAt(es, count[..], memsize, i);
      RegionAt(es, start[..], sorted, i);
      var cnt := count[i];
      len := cnt * 2;
      assert split[start[i]..start[i] + cnt] == sorted[start[i]..start[i] + cnt];
      BuildTable(split, numentries, len, start[i], cnt, Bucket(es, i));
      assert split[..numentries] == sorted;
      ghost var tab := split[numentries..numentries + len];
      TableBounded(tab, Bucket(es, i));
      assert forall k :: numentries <= k < numentries + len ==> split[k] == tab[k - numentries];
    }

    /** One round of the last loop of `cdb_make_finish`: note where the table of
        bucket `i` starts, build it in scratch space, and put it. */
    method PutBucket(split: array<Hp>, i: nat, ghost es: seq<Hp>, ghost tabs: seq<seq<Hp>>, ghost tpos: seq<nat>)
      returns (ok: bool, ghost tab: seq<Hp>)
      requires Shape() && Streaming(b.file.data, b.file.at, HEADER) && i < 256
      requires pos == |b.Out(HEADER)| + HEADER < TWO32
      requires tpos != [] && Tabled(b.Out(HEADER), final[..], es, tpos[0], tabs, tpos, i)
      requires Tally(es, count[..], memsize) && memsize + numentries <= split.Length
      requires Regions(es, es, start[..], split[..numentries])
      requires forall e :: e in Bucket(es, i) ==> e.p != 0 && e.h < TWO32 && e.p < TWO32
      modifies `pos, final, b`p, b.x, b.file, b.file.sys, split
      ensures Shape() && split[..numentries] == old(split[..numentries])
      ensures old(b.file.sys.faults) <= b.file.sys.faults
      ensures ok <==> b.file.sys.faults == old(b.file.sys.faults) && old(pos) + 16 * |Bucket(es, i)| < TWO32
      ensures ok ==> pos == old(pos) + 16 * |Bucket(es, i)|
      ensures ok ==> Streaming(b.file.data, b.file.at, HEADER) && pos == |b.Out(HEADER)| + HEADER < TWO32
      ensures ok ==> old(b.Out(HEADER)) <= b.Out(HEADER)
      ensures ok ==> Tabled(b.Out(HEADER), final[..], es, tpos[0], tabs + [tab], tpos + [pos], i + 1)
    {
      hide Tally, Streaming, Buffer.Out, Regions, Bucket, IsTable, TableAt, Tabled, Pack32, U32At;
      ghost var out, fin := b.Out(HEADER), final[..];
      PackInto(final, 4 * i, pos);
      var len := BuildBucket(split, i, es);
      tab := split[numentries..numentries + len];
      ok := PutTable(split, numentries, len);
      if ok {
        ghost var more := b.Out(HEADER)[|out|..];
        assert b.Out(HEADER) == out + more;
        assert final[..][4 * i..4 * i + 4] == final[4 * i..4 * i + 4];
        TabledPush(out, fin, es, tpos[0], tabs, tpos, i, final[..], more, tab);
      }
    }

    /** `cdb_make_finish`: sort the entries into buckets, emit one table per
        bucket, and put the header in front. */
    method Finish() returns (ok: bool)
      requires Valid()
      modifies `pos, start, final, b`p, b.x, b.file, b.file.sys
      ensures ok ==> IsCdb(b.file.data, recs, hash)
      ensures old(b.file.sys.faults) <= b.file.sys.faults
      ensures ok <==> ScratchFits(Hps(recs, hash)) && RecPos(recs, |recs|) + 16 * |recs| < TWO32
                      && b.file.sys.faults == old(b.file.sys.faults)
    {
      hide Written, Tally, Hps, RecPos, Streaming, Flatten, Chunked, Buffer.Out, Regions, Bucket, Tabled, IsCdb,
           Below, ScratchFits;
      TallyFits(Hps(recs, hash), count[..], memsize);
      var mem := memsize + numentries;
      if mem > MAX_SLOTS {
        return false;
      }
      ok := b.file.sys.Try();
      if !ok {
        return;
      }
      var split := new Hp[mem](_ => EMPTY);
      ghost var es := Hps(recs, hash);
      TallyFacts(es, count[..], memsize);
      BelowFirst(es);
      BelowTotal(es);
      BucketEnds(count, start, es);
      Distribute(head, start, split, es);
      RegionsPrefix(es, start[..], split[..], numentries);
      ghost var body := b.Out(HEADER);
      ghost var tabs: seq<seq<Hp>>, tpos: seq<nat> := [], [pos];
      WrittenLength(body, recs);
      TabledNone(body, final[..], es, pos);
      for i := 0 to 256
        invariant Shape() && Streaming(b.file.data, b.file.at, HEADER)
        invariant pos == |b.Out(HEADER)| + HEADER < TWO32 && body <= b.Out(HEADER)
        invariant pos == RecPos(recs, |recs|) + 16 * Below(es, i) && b.file.sys.faults == old(b.file.sys.faults)
        invariant tpos != [] && tpos[0] == RecPos(recs, |recs|)
        invariant Tabled(b.Out(HEADER), final[..], es, tpos[0], tabs, tpos, i)
        invariant Regions(es, es, start[..], split[..numentries])
        invariant Tally(es, count[..], memsize)
      {
        EntriesBounded(recs, hash, i);
        ghost var tab;
        BelowStep(es, i);
        BelowMonotone(es, i + 1, 256);
        ok, tab := PutBucket(split, i, es, tabs, tpos);
        if !ok {
          return;
        }
        tabs, tpos := tabs + [tab], tpos + [pos];
      }
      ok := Seal(tabs, tpos, body);
    }

    /** The end of `cdb_make_finish`: flush, seek back, write the header. */
    method Seal(ghost tabs: seq<seq<Hp>>, ghost tpos: seq<nat>, ghost body: seq<byte>) returns (ok: bool)
      requires Shape() && Streaming(b.file.data, b.file.at, HEADER)
      requires Written(body, recs) && body <= b.Out(HEADER) && |b.Out(HEADER)| + HEADER < TWO32
      requires Tabled(b.Out(HEADER), final[..], Hps(recs, hash), RecPos(recs, |recs|), tabs, tpos, 256)
      modifies b`p, b.file, b.file.sys
      ensures ok ==> IsCdb(b.file.data, recs, hash)
      ensures old(b.file.sys.faults) <= b.file.sys.faults && (ok <==> b.file.sys.faults == old(b.file.sys.faults))
    {
      hide Written, Hps, RecPos, Streaming, Streamed, Buffer.Out, Tabled, IsCdb;
      ghost var out := b.Out(HEADER);
      Complete(final[..], out, recs, hash, body, tabs, tpos);
      ok := b.FlushStream(HEADER);
      if !ok {
        return;
      }
      WriteHeader(b.file.data, b.file.at, final[..], out);
      ok := b.file.Seek(0);
      if !ok {
        return;
      }
      ok := b.PutFlush(final[..]);
    }
  }

  lemma Prefixed(a: seq<byte>, b: seq<byte>, c: seq<byte>)
    requires a <= b
    ensures a <= b + c
  {
  }

  lemma TallyLength(es: seq<Hp>, count: seq<nat>, memsize: nat)
    requires Tally(es, count, memsize)
    ensures |count| == 256
  {
  }

  lemma TallyFacts(es: seq<Hp>, count: seq<nat>, memsize: nat)
    requires Tally(es, count, memsize)
    ensures |count| == 256 && forall i :: 0 <= i < 256 ==> count[i] == |Bucket(es, i)|
  {
  }

  /** The scratch table and the entries fit exactly when they do so for every bucket. */
  lemma TallyFits(es: seq<Hp>, count: seq<nat>, memsize: nat)
    requires Tally(es, count, memsize)
    ensures memsize + |es| <= MAX_SLOTS <==> ScratchFits(es)
  {
    hide Bucket;
    if ScratchFits(es) && memsize != 1 {
      var i :| 0 <= i < |count| && memsize == 2 * count[i];
    }
  }

  /** Every bucket's table fits into memory together with all entries. */
  ghost predicate ScratchFits(es: seq<Hp>) {
    1 + |es| <= MAX_SLOTS && forall i :: 0 <= i < 256 ==> 2 * |Bucket(es, i)| + |es| <= MAX_SLOTS
  }

  lemma TallyAt(es: seq<Hp>, count: seq<nat>, memsize: nat, i: nat)
    requires Tally(es, count, memsize) && i < 256
    ensures |count| == 256 && count[i] == |Bucket(es, i)| && 2 * count[i] <= memsize
  {
  }

  lemma WrittenLength(out: seq<byte>, recs: seq<Rec>)
    requires Written(out, recs)
    ensures |out| + HEADER == RecPos(recs, |recs|)
  {
  }

  lemma TabledNone(out: seq<byte>, final: seq<byte>, es: seq<Hp>, pos: nat)
    requires |final| == HEADER && pos == |out| + HEADER
    ensures Tabled(out, final, es, pos, [], [pos], 0)
  {
  }

  /** The sorted part alone still shows every bucket. */
  lemma RegionsPrefix(es: seq<Hp>, st: seq<nat>, sp: seq<Hp>, n: nat)
    requires Regions(es, es, st, sp) && n == |es| <= |sp|
    ensures Regions(es, es, st, sp[..n])
  {
    hide Bucket, Below;
    forall b | 0 <= b < 256
      ensures Region(es, es, st, sp[..n], b)
    {
      assert Region(es, es, st, sp, b);
      BelowTotal(es);
      BelowMonotone(es, b + 1, 256);
      assert sp[..n][st[b]..Below(es, b + 1)] == sp[st[b]..Below(es, b + 1)];
    }
  }

  lemma RegionAt(es: seq<Hp>, st: seq<nat>, sp: seq<Hp>, b: nat)
    requires Regions(es, es, st, sp) && b < 256
    ensures |st| == 256 && st[b] + |Bucket(es, b)| <= |sp|
    ensures sp[st[b]..st[b] + |Bucket(es, b)|] == Bucket(es, b)
  {
    hide Bucket, Below;
    assert Region(es, es, st, sp, b);
  }

  /** Hashes and positions fit the slots. */
  lemma EntriesBounded(recs: seq<Rec>, hash: seq<byte> -> u32, b: nat)
    requires RecPos(recs, |recs|) < TWO32
    ensures forall e :: e in Bucket(Hps(recs, hash), b) ==> e.p != 0 && e.h < TWO32 && e.p < TWO32
  {
    hide Bucket;
    forall e | e in Bucket(Hps(recs, hash), b)
      ensures e.p != 0 && e.h < TWO32 && e.p < TWO32
    {
      BucketMember(Hps(recs, hash), b, e);
      var i :| 0 <= i < |recs| && Hps(recs, hash)[i] == e;
      RecPosMonotone(recs, i, |recs|);
    }
  }

  lemma TableBounded(tab: seq<Hp>, es: seq<Hp>)
    requires IsTable(tab, es) && forall e :: e in es ==> e.h < TWO32 && e.p < TWO32
    ensures forall k :: 0 <= k < |tab| ==> tab[k].h < TWO32 && tab[k].p < TWO32
  {
    hide Paved;
    var at :| Probed(tab, es, at);
    forall k | 0 <= k < |tab|
      ensures tab[k].h < TWO32 && tab[k].p < TWO32
    {
      if tab[k] != EMPTY {
        var j :| 0 <= j < |at| && at[j] == k;
        assert tab[k] == es[j];
      }
    }
  }

  /** Rewriting the first 1024 bytes of the streamed file. */
  lemma WriteHeader(data: seq<byte>, at: nat, final: seq<byte>, out: seq<byte>)
    requires Streaming(data, at, HEADER) && |final| == HEADER && Streamed(data, HEADER) == out
    ensures WriteAt(data, 0, final) == final + out
  {
    if data == [] {
      assert seq(0, _ => 0) == [];
    } else {
      assert data[..0] == [];
      assert out == data[HEADER..];
    }
  }
}
