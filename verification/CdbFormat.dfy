/**
 The constant-database file format, stated as a relation between the bytes of
 a finished file, the records in the order they were added, and the hash
 function. The writer (CdbWriter) establishes it and the reader (CdbReader)
 relies on nothing else.
 */
module CdbFormat {
  import opened Bytes

  const HEADER: nat := 1024          // 256 table positions of 4 bytes
  const KVLSZ: nat := 4              // 1 byte of key length, 3 of value length
  const MAX_KEY: nat := 0xff
  const MAX_VALUE: nat := 0xffffff

  datatype Rec = Rec(key: seq<byte>, data: seq<byte>)

  /** A (hash, position) pair, as stored in the hash tables. */
  datatype Hp = Hp(h: nat, p: nat)

  const EMPTY: Hp := Hp(0, 0)

  /** The lengths `pack_kvlen` accepts, terminating zeros included. */
  predicate Storable(r: Rec) {
    |r.key| + 1 <= MAX_KEY && |r.data| + 1 < MAX_VALUE
  }

  // --- records ---

  function RecSize(r: Rec): nat {
    KVLSZ + |r.key| + 1 + |r.data| + 1
  }

  /** File position of record `i`; RecPos(recs, |recs|) is where the tables start. */
  function RecPos(recs: seq<Rec>, i: nat): (p: nat)
    requires i <= |recs|
    ensures p >= HEADER
  {
    if i == 0 then HEADER else RecPos(recs, i - 1) + RecSize(recs[i - 1])
  }

  lemma {:induction false} RecPosPrefix(recs: seq<Rec>, more: seq<Rec>, i: nat)
    requires i <= |recs|
    ensures RecPos(recs + more, i) == RecPos(recs, i)
  {
    if i > 0 {
      RecPosPrefix(recs, more, i - 1);
    }
  }

  lemma {:induction false} RecPosMonotone(recs: seq<Rec>, i: nat, j: nat)
    requires i < j <= |recs|
    ensures RecPos(recs, i) + RecSize(recs[i]) <= RecPos(recs, j)
    decreases j
  {
    if i < j - 1 {
      RecPosMonotone(recs, i, j - 1);
    }
  }

  /** The three value length bytes of the record at `p`. */
  function ValueLen(file: seq<byte>, p: nat): (n: nat)
    requires p + KVLSZ <= |file|
    ensures n <= MAX_VALUE
  {
    file[p + 1] as int + 256 * file[p + 2] as int + 65536 * file[p + 3] as int
  }

  /** The record's lengths, key, zero, data and zero stand at position `p`. */
  predicate RecordAt(file: seq<byte>, p: nat, r: Rec) {
    var k := p + KVLSZ + |r.key| + 1;
    && p + RecSize(r) <= |file|
    && file[p] == |r.key| + 1
    && ValueLen(file, p) == |r.data| + 1
    && file[p + KVLSZ..k] == r.key + [0]
    && file[k..k + |r.data| + 1] == r.data + [0]
  }

  // --- hash entries ---

  /** The hash entries of the first `n` records. */
  ghost function HpsUpTo(recs: seq<Rec>, hash: seq<byte> -> u32, n: nat): (es: seq<Hp>)
    requires n <= |recs|
    ensures |es| == n
    ensures forall i :: 0 <= i < n ==> es[i] == Hp(hash(recs[i].key), RecPos(recs, i))
  {
    if n == 0 then [] else HpsUpTo(recs, hash, n - 1) + [Hp(hash(recs[n - 1].key), RecPos(recs, n - 1))]
  }

  /** Every record's hash entry, in the order the records were added. */
  ghost function Hps(recs: seq<Rec>, hash: seq<byte> -> u32): (es: seq<Hp>)
    ensures |es| == |recs|
    ensures forall i :: 0 <= i < |es| ==> es[i] == Hp(hash(recs[i].key), RecPos(recs, i))
  {
    HpsUpTo(recs, hash, |recs|)
  }

  lemma {:induction false} HpsPrefix(recs: seq<Rec>, r: Rec, hash: seq<byte> -> u32, n: nat)
    requires n <= |recs|
    ensures HpsUpTo(recs + [r], hash, n) == HpsUpTo(recs, hash, n)
  {
    if n > 0 {
      HpsPrefix(recs, r, hash, n - 1);
      RecPosPrefix(recs, [r], n - 1);
    }
  }

  lemma HpsAppend(recs: seq<Rec>, r: Rec, hash: seq<byte> -> u32)
    ensures Hps(recs + [r], hash) == Hps(recs, hash) + [Hp(hash(r.key), RecPos(recs, |recs|))]
  {
    HpsPrefix(recs, r, hash, |recs|);
    RecPosPrefix(recs, [r], |recs|);
  }

  /** The entries whose hash falls in bucket `b`, in order. */
  ghost function Bucket(es: seq<Hp>, b: nat): (r: seq<Hp>)
    ensures |r| <= |es|
  {
    if es == [] then [] else
      var n := |es| - 1;
      Bucket(es[..n], b) + Kept(es[n], b)
  }

  ghost function Kept(e: Hp, b: nat): (r: seq<Hp>)
    ensures |r| <= 1
  {
    if e.h % 256 == b then [e] else []
  }

  lemma BucketSnoc(es: seq<Hp>, e: Hp, b: nat)
    ensures Bucket(es + [e], b) == Bucket(es, b) + Kept(e, b)
  {
    assert (es + [e])[..|es|] == es;
  }

  lemma {:induction false} BucketAppend(es: seq<Hp>, fs: seq<Hp>, b: nat)
    ensures Bucket(es + fs, b) == Bucket(es, b) + Bucket(fs, b)
  {
    if fs == [] {
      assert es + fs == es;
    } else {
      var n := |fs| - 1;
      var gs, e := fs[..n], fs[n];
      assert fs == gs + [e];
      BucketAppend(es, gs, b);
      BucketSnoc(gs, e, b);
      BucketSnoc(es + gs, e, b);
      calc {
        Bucket(es + fs, b);
      == { Assoc(es, gs, [e]); }
        Bucket(es + gs + [e], b);
      ==
        Bucket(es, b) + Bucket(gs, b) + Kept(e, b);
      == { Assoc(Bucket(es, b), Bucket(gs, b), Kept(e, b)); }
        Bucket(es, b) + Bucket(fs, b);
      }
    }
  }

  lemma {:induction false} BucketMember(es: seq<Hp>, b: nat, e: Hp)
    ensures e in Bucket(es, b) <==> e in es && e.h % 256 == b
  {
    if es != [] {
      var n := |es| - 1;
      BucketMember(es[..n], b, e);
      assert es == es[..n] + [es[n]];
    }
  }

  /** Later entries lie further into the file. */
  ghost predicate Rising(es: seq<Hp>) {
    forall i, j :: 0 <= i < j < |es| ==> es[i].p < es[j].p
  }

  lemma {:induction false} BucketRising(es: seq<Hp>, b: nat)
    requires Rising(es)
    ensures Rising(Bucket(es, b))
    ensures forall e :: e in Bucket(es, b) ==> e in es
  {
    if es != [] {
      var n := |es| - 1;
      BucketRising(es[..n], b);
      forall e | e in Bucket(es[..n], b)
        ensures e.p < es[n].p
      {
        assert e in es[..n];
      }
    }
  }

  lemma HpsRising(recs: seq<Rec>, hash: seq<byte> -> u32)
    ensures Rising(Hps(recs, hash))
  {
    forall i, j | 0 <= i < j < |recs|
      ensures RecPos(recs, i) < RecPos(recs, j)
    {
      RecPosMonotone(recs, i, j);
    }
  }

  // --- one linear-probing table ---

  function Home(h: nat, len: nat): (s: nat)
    requires len > 0
    ensures s < len
  {
    h / 256 % len
  }

  /** The slot `d` steps after `home`, wrapping at the end of the table. */
  function Slot(home: nat, d: nat, len: nat): (s: nat)
    requires home < len && d <= len
    ensures s < len
  {
    if home + d < len then home + d else home + d - len
  }

  /** Slot `to` is `D` steps after `home` and the slots on the way are among `taken`. */
  ghost predicate Path(home: nat, D: nat, to: nat, taken: seq<nat>, len: nat) {
    && home < len && D < len
    && Slot(home, D, len) == to
    && forall d: nat :: d < D ==> Slot(home, d, len) in taken
  }

  /** `at[j]` is the slot of entry `j`; no two entries share one and the other
      slots are empty. */
  ghost predicate Seated(tab: seq<Hp>, es: seq<Hp>, at: seq<nat>) {
    && |at| == |es|
    && (forall j :: 0 <= j < |es| ==> at[j] < |tab| && tab[at[j]] == es[j])
    && (forall i, j :: 0 <= i < j < |es| ==> at[i] != at[j])
    && (forall s :: 0 <= s < |tab| ==> tab[s] == EMPTY || s in at)
  }

  /** Every slot probed on the way to entry `j` was taken by an earlier entry. */
  ghost predicate PavedTo(es: seq<Hp>, at: seq<nat>, len: nat, j: nat)
    requires |at| == |es| && j < |es|
  {
    len > 0 && exists D :: Path(Home(es[j].h, len), D, at[j], at[..j], len)
  }

  ghost predicate Paved(es: seq<Hp>, at: seq<nat>, len: nat)
    requires |at| == |es|
  {
    forall j :: 0 <= j < |es| ==> PavedTo(es, at, len, j)
  }

  ghost predicate Probed(tab: seq<Hp>, es: seq<Hp>, at: seq<nat>) {
    Seated(tab, es, at) && Paved(es, at, |tab|)
  }

  ghost predicate IsTable(tab: seq<Hp>, es: seq<Hp>) {
    |tab| == 2 * |es| && exists at :: Probed(tab, es, at)
  }

  /** The slots of `tab`, packed from position `p` on. */
  ghost predicate TableAt(file: seq<byte>, p: nat, tab: seq<Hp>) {
    && p + 8 * |tab| <= |file|
    && forall s :: 0 <= s < |tab| ==> U32At(file, p + 8 * s) == tab[s].h && U32At(file, p + 8 * s + 4) == tab[s].p
  }

  lemma NoTable(file: seq<byte>, p: nat)
    requires p <= |file|
    ensures TableAt(file, p, [])
  {
  }

  // --- the whole file ---

  /** The table of bucket `b` stands at `tpos[b]`, where the header says. */
  ghost predicate BucketOk(file: seq<byte>, recs: seq<Rec>, hash: seq<byte> -> u32, tab: seq<Hp>, tpos: seq<nat>,
                           b: nat)
    requires |tpos| == 257 && b < 256 && |file| >= HEADER
  {
    && U32At(file, 4 * b) == tpos[b]
    && tpos[b + 1] == tpos[b] + 8 * |tab|
    && TableAt(file, tpos[b], tab)
    && IsTable(tab, Bucket(Hps(recs, hash), b))
  }

  ghost predicate IsCdbWith(file: seq<byte>, recs: seq<Rec>, hash: seq<byte> -> u32, tabs: seq<seq<Hp>>,
                            tpos: seq<nat>) {
    && HEADER <= |file| < TWO32
    && |tabs| == 256 && |tpos| == 257
    && (forall i :: 0 <= i < |recs| ==> Storable(recs[i]) && RecordAt(file, RecPos(recs, i), recs[i]))
    && tpos[0] == RecPos(recs, |recs|) && tpos[256] == |file|
    && (forall b :: 0 <= b < 256 ==> BucketOk(file, recs, hash, tabs[b], tpos, b))
  }

  /** `file` is a complete constant database of `recs`. */
  ghost predicate IsCdb(file: seq<byte>, recs: seq<Rec>, hash: seq<byte> -> u32) {
    exists tabs, tpos :: IsCdbWith(file, recs, hash, tabs, tpos)
  }

  // --- what a lookup should answer ---

  /** Index of the first record added under `key`, or |recs| if there is none. */
  function FirstIndex(recs: seq<Rec>, key: seq<byte>): (i: nat)
    ensures i <= |recs|
    ensures forall j :: 0 <= j < i ==> recs[j].key != key
    ensures i < |recs| ==> recs[i].key == key
  {
    if recs == [] then 0
    else if recs[0].key == key then 0
    else 1 + FirstIndex(recs[1..], key)
  }
}
