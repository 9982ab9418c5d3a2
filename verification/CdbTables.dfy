/**
 The steps of `cdb_make_finish` on plain sequences: distributing hash entries
 over 256 buckets, inserting one entry into a linear-probing table, and
 appending packed slots to the output.
 */
module CdbTables {
  import opened Bytes
  import opened CdbFormat

  // --- counting sort ---

  /** How many entries fall into the buckets before `b`. */
  ghost function Below(es: seq<Hp>, b: nat): nat {
    if b == 0 then 0 else Below(es, b - 1) + |Bucket(es, b - 1)|
  }

  lemma {:induction false} BelowMonotone(es: seq<Hp>, a: nat, b: nat)
    requires a <= b
    ensures Below(es, a) <= Below(es, b)
    decreases b
  {
    if a < b {
      BelowMonotone(es, a, b - 1);
    }
  }

  lemma {:induction false} BelowSnoc(es: seq<Hp>, e: Hp, b: nat)
    ensures Below(es + [e], b) == Below(es, b) + if e.h % 256 < b then 1 else 0
  {
    hide Bucket;
    if b > 0 {
      BelowSnoc(es, e, b - 1);
      BucketSnoc(es, e, b - 1);
    }
  }

  lemma {:induction false} BelowNone(b: nat)
    ensures Below([], b) == 0
  {
    if b > 0 {
      BelowNone(b - 1);
    }
  }

  /** The 256 buckets hold every entry. */
  lemma {:induction false} BelowTotal(es: seq<Hp>)
    ensures Below(es, 256) == |es|
  {
    if es == [] {
      BelowNone(256);
    } else {
      var n := |es| - 1;
      BelowTotal(es[..n]);
      BelowSnoc(es[..n], es[n], 256);
      assert es == es[..n] + [es[n]];
    }
  }

  /** `st[b]` is the start of the part of bucket `b` that is already in place,
      which holds the entries of `done`. */
  ghost predicate Region(es: seq<Hp>, done: seq<Hp>, st: seq<nat>, sp: seq<Hp>, b: nat)
    requires b < |st|
  {
    && Below(es, b) <= st[b] <= Below(es, b + 1) <= |sp|
    && sp[st[b]..Below(es, b + 1)] == Bucket(done, b)
  }

  ghost predicate Regions(es: seq<Hp>, done: seq<Hp>, st: seq<nat>, sp: seq<Hp>) {
    |st| == 256 && forall b :: 0 <= b < 256 ==> Region(es, done, st, sp, b)
  }

  /** Bucket sizes: before, this one, after. */
  lemma BucketSplit(rest: seq<Hp>, e: Hp, done: seq<Hp>, b: nat)
    ensures Bucket([e] + done, b) == Kept(e, b) + Bucket(done, b)
    ensures |Bucket(rest + ([e] + done), b)| == |Bucket(rest, b)| + |Kept(e, b)| + |Bucket(done, b)|
  {
    BucketAppend(rest, [e] + done, b);
    BucketAppend([e], done, b);
    BucketSnoc([], e, b);
    assert [] + [e] == [e];
  }

  /** Placing the last remaining entry one below its bucket's start keeps every
      region, in the entries' own order. */
  lemma DistributeStep(es: seq<Hp>, rest: seq<Hp>, e: Hp, done: seq<Hp>, st: seq<nat>, sp: seq<Hp>)
    requires es == rest + ([e] + done) && Regions(es, done, st, sp)
    ensures var b := e.h % 256;
            && 0 < st[b] <= |sp|
            && Regions(es, [e] + done, st[b := st[b] - 1], sp[st[b] - 1 := e])
  {
    hide Bucket, Below;
    var b := e.h % 256;
    assert Region(es, done, st, sp, b);
    BucketSplit(rest, e, done, b);
    BelowStep(es, b);
    var st', sp' := st[b := st[b] - 1], sp[st[b] - 1 := e];
    forall c | 0 <= c < 256
      ensures Region(es, [e] + done, st', sp', c)
    {
      assert Region(es, done, st, sp, c);
      BucketSplit(rest, e, done, c);
      if c == b {
        assert sp'[st'[b]..Below(es, b + 1)] == [e] + sp[st[b]..Below(es, b + 1)];
      } else {
        if c < b {
          BelowMonotone(es, c + 1, b);
        } else {
          BelowMonotone(es, b + 1, c);
        }
        assert sp'[st[c]..Below(es, c + 1)] == sp[st[c]..Below(es, c + 1)];
      }
    }
  }

  lemma BelowFirst(es: seq<Hp>)
    ensures Below(es, 0) == 0
  {
  }

  lemma BelowStep(es: seq<Hp>, b: nat)
    ensures Below(es, b + 1) == Below(es, b) + |Bucket(es, b)|
  {
  }

  // --- linear probing ---

  /** A table with fewer entries than slots has a free one. */
  lemma {:induction false} FreeSlot(at: seq<nat>, len: nat) returns (f: nat)
    requires |at| < len
    ensures f < len && f !in at
    decreases len
  {
    if len == 1 {
      f := 0;
    } else if exists i :: 0 <= i < |at| && at[i] == len - 1 {
      var i :| 0 <= i < |at| && at[i] == len - 1;
      var less := at[..i] + at[i + 1..];
      f := FreeSlot(less, len - 1);
    } else {
      f := len - 1;
    }
  }

  /** The step count from `home` to slot `f`. */
  function Steps(home: nat, f: nat, len: nat): (d: nat)
    requires home < len && f < len
    ensures d < len && Slot(home, d, len) == f
  {
    if home <= f then f - home else f + len - home
  }

  /** Every slot up to step `d` is taken. */
  ghost predicate Occupied(tab: seq<Hp>, home: nat, d: nat) {
    && home < |tab| && d <= |tab|
    && forall k: nat :: k < d ==> tab[Slot(home, k, |tab|)] != EMPTY
  }

  lemma InsertSeated(tab: seq<Hp>, es: seq<Hp>, at: seq<nat>, e: Hp, w: nat)
    requires Seated(tab, es, at) && w < |tab| && tab[w] == EMPTY && EMPTY !in es
    ensures Seated(tab[w := e], es + [e], at + [w])
  {
    forall j | 0 <= j < |es|
      ensures at[j] != w
    {
      assert tab[at[j]] == es[j];
    }
    forall s | 0 <= s < |tab| && tab[w := e][s] != EMPTY
      ensures s in at + [w]
    {
      assert s == w || s in at;
    }
  }

  lemma InsertPaved(es: seq<Hp>, at: seq<nat>, len: nat, e: Hp, w: nat, d: nat)
    requires |at| == |es| && len > 0 && Paved(es, at, len)
    requires Path(Home(e.h, len), d, w, at, len)
    ensures Paved(es + [e], at + [w], len)
  {
    hide Home, Path;
    var es', at' := es + [e], at + [w];
    forall j | 0 <= j < |es'|
      ensures PavedTo(es', at', len, j)
    {
      if j < |es| {
        assert PavedTo(es, at, len, j);
        var D :| Path(Home(es[j].h, len), D, at[j], at[..j], len);
        assert at'[..j] == at[..j];
        assert Path(Home(es'[j].h, len), D, at'[j], at'[..j], len);
      } else {
        assert at'[..j] == at;
        assert Path(Home(es'[j].h, len), d, at'[j], at'[..j], len);
      }
    }
  }

  /** Putting `e` into the first free slot from its home keeps the table searchable. */
  lemma InsertProbed(tab: seq<Hp>, es: seq<Hp>, at: seq<nat>, e: Hp, d: nat)
    requires Probed(tab, es, at) && EMPTY !in es
    requires d < |tab| && Occupied(tab, Home(e.h, |tab|), d)
    requires tab[Slot(Home(e.h, |tab|), d, |tab|)] == EMPTY
    ensures var w := Slot(Home(e.h, |tab|), d, |tab|);
            Probed(tab[w := e], es + [e], at + [w])
  {
    hide Home, Paved;
    var w := Slot(Home(e.h, |tab|), d, |tab|);
    InsertSeated(tab, es, at, e, w);
    InsertPaved(es, at, |tab|, e, w, d);
  }

  // --- appending to the output ---

  lemma RecordAppend(out: seq<byte>, more: seq<byte>, p: nat, r: Rec)
    requires RecordAt(out, p, r)
    ensures RecordAt(out + more, p, r)
  {
    var k := p + KVLSZ + |r.key| + 1;
    assert (out + more)[p + KVLSZ..k] == out[p + KVLSZ..k];
    assert (out + more)[k..k + |r.data| + 1] == out[k..k + |r.data| + 1];
  }

  lemma TableAppend(out: seq<byte>, more: seq<byte>, p: nat, tab: seq<Hp>)
    requires TableAt(out, p, tab)
    ensures TableAt(out + more, p, tab)
  {
    forall s | 0 <= s < |tab|
      ensures U32At(out + more, p + 8 * s) == tab[s].h && U32At(out + more, p + 8 * s + 4) == tab[s].p
    {
      assert U32At(out, p + 8 * s) == tab[s].h && U32At(out, p + 8 * s + 4) == tab[s].p;
    }
  }

  /** One more packed slot. */
  lemma SlotAppend(out: seq<byte>, p: nat, tab: seq<Hp>, e: Hp)
    requires TableAt(out, p, tab) && p + 8 * |tab| == |out|
    requires e.h < TWO32 && e.p < TWO32
    ensures TableAt(out + (Pack32(e.h) + Pack32(e.p)), p, tab + [e])
  {
    hide U32At, Pack32;
    var more := Pack32(e.h) + Pack32(e.p);
    var all := out + more;
    TableAppend(out, more, p, tab);
    assert all[|out|..|out| + 4] == Pack32(e.h);
    assert all[|out| + 4..|out| + 8] == Pack32(e.p);
    PackRoundTrip(all, |out|, e.h);
    PackRoundTrip(all, |out| + 4, e.p);
  }

  /** The four length bytes in front of a record. */
  function KvLen(klen: nat, vlen: nat): (s: seq<byte>)
    requires klen <= MAX_KEY && vlen <= MAX_VALUE
    ensures |s| == KVLSZ
  {
    [klen, vlen % 256, vlen / 256 % 256, vlen / 65536]
  }

  /** A record is complete once its lengths, key and data have been put. */
  lemma RecordPut(out: seq<byte>, r: Rec)
    requires Storable(r)
    ensures var all := out + KvLen(|r.key| + 1, |r.data| + 1) + (r.key + [0]) + (r.data + [0]);
            |all| == |out| + RecSize(r) && RecordAt(all, |out|, r)
  {
    var vlen := |r.data| + 1;
    var lens := KvLen(|r.key| + 1, vlen);
    var all := out + lens + (r.key + [0]) + (r.data + [0]);
    var p := |out|;
    var k := p + KVLSZ + |r.key| + 1;
    assert all[p] == lens[0] && all[p + 1] == lens[1] && all[p + 2] == lens[2] && all[p + 3] == lens[3];
    assert vlen / 65536 == vlen / 256 / 256;
    assert all[p + KVLSZ..k] == r.key + [0];
    assert all[k..k + |r.data| + 1] == r.data + [0];
  }

  // --- putting the header in front ---

  lemma RecordShift(head: seq<byte>, out: seq<byte>, p: nat, r: Rec)
    requires RecordAt(out, p, r)
    ensures RecordAt(head + out, |head| + p, r)
  {
    var k := p + KVLSZ + |r.key| + 1;
    var all, n := head + out, |head|;
    assert all[n + p + KVLSZ..n + k] == out[p + KVLSZ..k];
    assert all[n + k..n + k + |r.data| + 1] == out[k..k + |r.data| + 1];
  }

  lemma TableShift(head: seq<byte>, out: seq<byte>, p: nat, tab: seq<Hp>)
    requires TableAt(out, p, tab)
    ensures TableAt(head + out, |head| + p, tab)
  {
    var all, n := head + out, |head|;
    forall s | 0 <= s < |tab|
      ensures U32At(all, n + p + 8 * s) == tab[s].h && U32At(all, n + p + 8 * s + 4) == tab[s].p
    {
      assert U32At(out, p + 8 * s) == tab[s].h && U32At(out, p + 8 * s + 4) == tab[s].p;
    }
  }
}
