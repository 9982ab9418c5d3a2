/**
 The constant-database file octet by octet, in plain arithmetic: what the packing
 functions, the positions and the probe paths of CdbFormat amount to.
 */
module CdbLayout {
  import opened Bytes
  import opened CdbFormat

  /** Four octets from `p` on, the least significant first. */
  ghost predicate Word(file: seq<byte>, p: int, u: int) {
    && 0 <= p && p + 4 <= |file|
    && file[p] as int + 256 * file[p + 1] as int + 65536 * file[p + 2] as int + 16777216 * file[p + 3] as int == u
  }

  /** One octet of key length and three of data length, the least significant first, each
      length with its terminating zero; then key and data with theirs. */
  ghost predicate RecordBytes(file: seq<byte>, p: int, key: seq<byte>, data: seq<byte>) {
    var k, d := |key| + 1, |data| + 1;
    && 0 <= p && p + 4 + k + d <= |file| && k <= 255 && d < 16777215
    && file[p] == k && file[p + 1] as int + 256 * file[p + 2] as int + 65536 * file[p + 3] as int == d
    && file[p + 4..p + 4 + k] == key + [0]
    && file[p + 4 + k..p + 4 + k + d] == data + [0]
  }

  /** How many of the first `n` records have hash `b` modulo 256. */
  ghost function Count(recs: seq<Rec>, hash: seq<byte> -> u32, b: int, n: nat): nat
    requires n <= |recs|
  {
    if n == 0 then 0 else Count(recs, hash, b, n - 1) + if hash(recs[n - 1].key) % 256 == b then 1 else 0
  }

  /** The records follow the 1024 octets of the header without gaps. */
  ghost predicate Starts(recs: seq<Rec>, pos: seq<int>) {
    && |pos| == |recs| + 1 && pos[0] == 1024
    && forall i :: 0 <= i < |recs| ==> pos[i + 1] == pos[i] + 6 + |recs[i].key| + |recs[i].data|
  }

  /** The 256 tables follow the records without gaps, twice as many slots of eight octets
      as the table has entries; the header is their positions. */
  ghost predicate HeaderBytes(file: seq<byte>, recs: seq<Rec>, hash: seq<byte> -> u32, tpos: seq<int>) {
    && |tpos| == 257 && tpos[256] == |file|
    && (forall b :: 0 <= b < 256 ==> Word(file, 4 * b, tpos[b]))
    && (forall b :: 0 <= b < 256 ==> tpos[b + 1] == tpos[b] + 16 * Count(recs, hash, b, |recs|))
  }

  /** An earlier record of the same table sits `e` slots after the home slot of record `i`. */
  ghost predicate TakenBefore(recs: seq<Rec>, hash: seq<byte> -> u32, at: seq<int>, i: int, len: int, e: int)
    requires |at| == |recs| && 0 <= i < |recs| && len > 0
  {
    exists j :: 0 <= j < i && hash(recs[j].key) % 256 == hash(recs[i].key) % 256
                && at[j] == (hash(recs[i].key) / 256 % len + e) % len
  }

  /** Record `i` sits `d` slots after its home slot, and all slots between are taken before. */
  ghost predicate SeatedAfter(recs: seq<Rec>, hash: seq<byte> -> u32, at: seq<int>, i: int, len: int, d: int)
    requires |at| == |recs| && 0 <= i < |recs|
  {
    && 0 <= d < len && at[i] == (hash(recs[i].key) / 256 % len + d) % len
    && forall e :: 0 <= e < d ==> TakenBefore(recs, hash, at, i, len, e)
  }

  /** The slot of record `i`: its hash and its position. */
  ghost predicate SlotBytes(file: seq<byte>, recs: seq<Rec>, hash: seq<byte> -> u32, pos: seq<int>, tpos: seq<int>,
                            at: seq<int>, i: int)
    requires |pos| == |recs| + 1 && |tpos| == 257 && |at| == |recs| && 0 <= i < |recs|
  {
    var h := hash(recs[i].key);
    var b, len := h % 256, 2 * Count(recs, hash, h % 256, |recs|);
    && Word(file, tpos[b] + 8 * at[i], h) && Word(file, tpos[b] + 8 * at[i] + 4, pos[i])
    && exists d :: SeatedAfter(recs, hash, at, i, len, d)
  }

  ghost predicate SlotUsed(recs: seq<Rec>, hash: seq<byte> -> u32, at: seq<int>, b: int, s: int)
    requires |at| == |recs|
  {
    exists i :: 0 <= i < |recs| && hash(recs[i].key) % 256 == b && at[i] == s
  }

  /** All other slots are zero, and no two records share one. */
  ghost predicate OthersZero(file: seq<byte>, recs: seq<Rec>, hash: seq<byte> -> u32, tpos: seq<int>, at: seq<int>)
    requires |tpos| == 257 && |at| == |recs|
  {
    && (forall b, s :: 0 <= b < 256 && 0 <= s < 2 * Count(recs, hash, b, |recs|) && !SlotUsed(recs, hash, at, b, s)
          ==> Word(file, tpos[b] + 8 * s, 0) && Word(file, tpos[b] + 8 * s + 4, 0))
    && (forall i, j :: 0 <= i < j < |recs| && hash(recs[i].key) % 256 == hash(recs[j].key) % 256 ==> at[i] != at[j])
  }

  ghost predicate Laid(file: seq<byte>, recs: seq<Rec>, hash: seq<byte> -> u32, pos: seq<int>, tpos: seq<int>,
                       at: seq<int>) {
    && |file| < 0x1_0000_0000 && Starts(recs, pos) && |at| == |recs|
    && HeaderBytes(file, recs, hash, tpos) && tpos[0] == pos[|recs|]
    && (forall i :: 0 <= i < |recs| ==> RecordBytes(file, pos[i], recs[i].key, recs[i].data))
    && (forall i :: 0 <= i < |recs| ==> SlotBytes(file, recs, hash, pos, tpos, at, i))
    && OthersZero(file, recs, hash, tpos, at)
  }

  // --- how a bucket lists its records ---

  lemma CountLess(recs: seq<Rec>, hash: seq<byte> -> u32, b: int, n: nat)
    requires 0 < n <= |recs|
    ensures Count(recs, hash, b, n) == Count(recs, hash, b, n - 1) + if hash(recs[n - 1].key) % 256 == b then 1 else 0
  {
  }

  lemma {:induction false} CountRises(recs: seq<Rec>, hash: seq<byte> -> u32, b: int, i: nat, j: nat)
    requires i < j <= |recs| && hash(recs[i].key) % 256 == b
    ensures Count(recs, hash, b, i) < Count(recs, hash, b, j)
  {
    hide Count;
    CountLess(recs, hash, b, j);
    if i < j - 1 {
      CountRises(recs, hash, b, i, j - 1);
    }
  }

  /** Every rank below the count is that of a record. */
  lemma {:induction false} CountHit(recs: seq<Rec>, hash: seq<byte> -> u32, b: int, n: nat, k: nat) returns (i: nat)
    requires n <= |recs| && k < Count(recs, hash, b, n)
    ensures i < n && hash(recs[i].key) % 256 == b && Count(recs, hash, b, i) == k
  {
    i := n - 1;
    if k < Count(recs, hash, b, n - 1) {
      i := CountHit(recs, hash, b, n - 1, k);
    }
  }

  /** The entries of bucket `b` among the first `n` records. */
  ghost function Listed(recs: seq<Rec>, hash: seq<byte> -> u32, b: nat, n: nat): seq<Hp>
    requires n <= |recs|
  {
    Bucket(HpsUpTo(recs, hash, n), b)
  }

  ghost function EntryOf(recs: seq<Rec>, hash: seq<byte> -> u32, i: nat): Hp
    requires i < |recs|
  {
    Hp(hash(recs[i].key), RecPos(recs, i))
  }

  lemma ListedGrows(recs: seq<Rec>, hash: seq<byte> -> u32, b: nat, n: nat)
    requires 0 < n <= |recs|
    ensures Listed(recs, hash, b, 0) == []
    ensures Listed(recs, hash, b, n)
            == Listed(recs, hash, b, n - 1)
               + if hash(recs[n - 1].key) % 256 == b then [EntryOf(recs, hash, n - 1)] else []
  {
    BucketSnoc(HpsUpTo(recs, hash, n - 1), EntryOf(recs, hash, n - 1), b);
  }

  lemma {:induction false} ListedCount(recs: seq<Rec>, hash: seq<byte> -> u32, b: nat, n: nat)
    requires n <= |recs|
    ensures |Listed(recs, hash, b, n)| == Count(recs, hash, b, n)
  {
    hide Listed, EntryOf;
    if n == 0 {
      ListedNone(recs, hash, b);
    } else {
      ListedCount(recs, hash, b, n - 1);
      ListedGrows(recs, hash, b, n);
    }
  }

  lemma ListedNone(recs: seq<Rec>, hash: seq<byte> -> u32, b: nat)
    ensures Listed(recs, hash, b, 0) == []
  {
  }

  lemma {:induction false} EntryRank(recs: seq<Rec>, hash: seq<byte> -> u32, b: nat, n: nat, i: nat)
    requires i < n <= |recs| && hash(recs[i].key) % 256 == b
    ensures var es, k := Listed(recs, hash, b, n), Count(recs, hash, b, i);
            k < |es| && es[k] == EntryOf(recs, hash, i)
  {
    hide Listed, EntryOf, Count;
    ListedGrows(recs, hash, b, n);
    ListedCount(recs, hash, b, n - 1);
    if i < n - 1 {
      EntryRank(recs, hash, b, n - 1, i);
    }
  }

  /** The entries of one bucket, by rank. */
  ghost predicate Ranks(recs: seq<Rec>, hash: seq<byte> -> u32, pos: seq<int>, b: nat, es: seq<Hp>)
    requires |pos| == |recs| + 1
  {
    && |es| == Count(recs, hash, b, |recs|)
    && forall i :: 0 <= i < |recs| && hash(recs[i].key) % 256 == b ==> RankIs(recs, hash, pos, b, es, i)
  }

  ghost predicate RankIs(recs: seq<Rec>, hash: seq<byte> -> u32, pos: seq<int>, b: nat, es: seq<Hp>, i: nat)
    requires |pos| == |recs| + 1 && i < |recs|
  {
    var k := Count(recs, hash, b, i);
    k < |es| && es[k].h == hash(recs[i].key) && es[k].p == pos[i]
  }

  lemma RanksOf(recs: seq<Rec>, hash: seq<byte> -> u32, pos: seq<int>, b: nat)
    requires |pos| == |recs| + 1 && forall i :: 0 <= i <= |recs| ==> pos[i] == RecPos(recs, i)
    ensures Ranks(recs, hash, pos, b, Bucket(Hps(recs, hash), b))
  {
    hide Listed, EntryOf, Count;
    ListedAll(recs, hash, b);
    ListedCount(recs, hash, b, |recs|);
    forall i | 0 <= i < |recs| && hash(recs[i].key) % 256 == b
      ensures RankIs(recs, hash, pos, b, Listed(recs, hash, b, |recs|), i)
    {
      EntryRank(recs, hash, b, |recs|, i);
      EntryIs(recs, hash, i);
    }
  }

  lemma EntryIs(recs: seq<Rec>, hash: seq<byte> -> u32, i: nat)
    requires i < |recs|
    ensures EntryOf(recs, hash, i).h == hash(recs[i].key) && EntryOf(recs, hash, i).p == RecPos(recs, i)
  {
  }

  lemma ListedAll(recs: seq<Rec>, hash: seq<byte> -> u32, b: nat)
    ensures Listed(recs, hash, b, |recs|) == Bucket(Hps(recs, hash), b)
  {
  }

  // --- one table ---

  lemma WordAt(file: seq<byte>, p: nat, u: nat)
    requires p + 4 <= |file| && U32At(file, p) == u
    ensures Word(file, p, u)
  {
  }

  /** The table of one bucket in the file, with the seats of its entries. */
  ghost predicate TableHere(file: seq<byte>, p: nat, tab: seq<Hp>, es: seq<Hp>, seats: seq<nat>) {
    |tab| == 2 * |es| && TableAt(file, p, tab) && Probed(tab, es, seats)
  }

  lemma SeatWords(file: seq<byte>, p: nat, tab: seq<Hp>, es: seq<Hp>, seats: seq<nat>, k: nat)
    requires TableHere(file, p, tab, es, seats) && k < |es|
    ensures |seats| == |es| && seats[k] < |tab|
    ensures Word(file, p + 8 * seats[k], es[k].h) && Word(file, p + 8 * seats[k] + 4, es[k].p)
  {
    hide Word, Paved, U32At;
    WordAt(file, p + 8 * seats[k], es[k].h);
    WordAt(file, p + 8 * seats[k] + 4, es[k].p);
  }

  lemma FreeWords(file: seq<byte>, p: nat, tab: seq<Hp>, es: seq<Hp>, seats: seq<nat>, s: nat)
    requires TableHere(file, p, tab, es, seats) && s < |tab| && s !in seats
    ensures Word(file, p + 8 * s, 0) && Word(file, p + 8 * s + 4, 0)
  {
    hide Word, Paved, U32At;
    WordAt(file, p + 8 * s, 0);
    WordAt(file, p + 8 * s + 4, 0);
  }

  /** Entry `k` sits `d` slots after its home, past seats of earlier entries. */
  ghost predicate Steps(es: seq<Hp>, seats: seq<nat>, len: nat, k: nat, d: nat)
    requires |seats| == |es| && k < |es|
  {
    && d < len && seats[k] == (es[k].h / 256 % len + d) % len
    && forall e: nat :: e < d ==> Passed(es, seats, len, k, e)
  }

  ghost predicate Passed(es: seq<Hp>, seats: seq<nat>, len: nat, k: nat, e: nat)
    requires |seats| == |es| && k < |es| && len > 0
  {
    exists q :: 0 <= q < k && seats[q] == (es[k].h / 256 % len + e) % len
  }

  lemma SeatSteps(tab: seq<Hp>, es: seq<Hp>, seats: seq<nat>, k: nat) returns (d: nat)
    requires Probed(tab, es, seats) && k < |es|
    ensures |seats| == |es| && Steps(es, seats, |tab|, k, d)
  {
    hide Slot;
    var len := |tab|;
    assert PavedTo(es, seats, len, k);
    var home := Home(es[k].h, len);
    var D: nat :| Path(home, D, seats[k], seats[..k], len);
    WrapsOnce(home, D, len);
    forall e: nat | e < D
      ensures Passed(es, seats, len, k, e)
    {
      WrapsOnce(home, e, len);
      assert Slot(home, e, len) in seats[..k];
      var q :| 0 <= q < k && seats[..k][q] == Slot(home, e, len);
      assert seats[q] == Slot(home, e, len);
    }
    d := D;
  }

  lemma WrapsOnce(home: nat, d: nat, len: nat)
    requires home < len && d < len
    ensures Slot(home, d, len) == (home + d) % len
  {
    if home + d < len {
      SmallMod(home + d, len, 0);
    } else {
      SmallMod(home + d - len, len, 1);
    }
  }

  lemma SmallMod(r: nat, len: nat, q: nat)
    requires r < len && q <= 1
    ensures (r + q * len) % len == r
  {
    var x := r + q * len;
    assert x == x / len * len + x % len;
    if x / len > q {
      Grows(q + 1, x / len, len);
    }
  }

  lemma Grows(a: nat, b: nat, len: nat)
    requires a <= b
    ensures a * len <= b * len
  {
  }

  // --- the whole file ---

  ghost function Seats(tab: seq<Hp>, es: seq<Hp>): (at: seq<nat>)
    requires IsTable(tab, es)
    ensures Probed(tab, es, at)
  {
    var at :| Probed(tab, es, at);
    at
  }

  /** All tables of a file, with the entries and seats of each. */
  ghost predicate Tables(file: seq<byte>, recs: seq<Rec>, hash: seq<byte> -> u32, pos: seq<int>, tpos: seq<nat>,
                         tabs: seq<seq<Hp>>, es: seq<seq<Hp>>, seats: seq<seq<nat>>) {
    && |pos| == |recs| + 1 && |tpos| == 257 && |tabs| == |es| == |seats| == 256
    && forall b :: 0 <= b < 256 ==> TableB(file, recs, hash, pos, tpos, tabs[b], es[b], seats[b], b)
  }

  ghost predicate TableB(file: seq<byte>, recs: seq<Rec>, hash: seq<byte> -> u32, pos: seq<int>, tpos: seq<nat>,
                         tab: seq<Hp>, es: seq<Hp>, seats: seq<nat>, b: nat)
    requires |pos| == |recs| + 1 && |tpos| == 257 && b < 256
  {
    && Word(file, 4 * b, tpos[b]) && tpos[b + 1] == tpos[b] + 8 * |tab|
    && TableHere(file, tpos[b], tab, es, seats) && |seats| == |es| && Ranks(recs, hash, pos, b, es)
  }

  lemma TableOf(file: seq<byte>, recs: seq<Rec>, hash: seq<byte> -> u32, pos: seq<int>, tpos: seq<nat>, tab: seq<Hp>,
                b: nat)
    requires |file| >= HEADER && |tpos| == 257 && b < 256 && BucketOk(file, recs, hash, tab, tpos, b)
    requires |pos| == |recs| + 1 && forall i :: 0 <= i <= |recs| ==> pos[i] == RecPos(recs, i)
    ensures var es := Bucket(Hps(recs, hash), b);
            IsTable(tab, es) && TableB(file, recs, hash, pos, tpos, tab, es, Seats(tab, es), b)
  {
    hide Bucket, Hps, RecPos, TableAt, Word, U32At, Paved, Ranks;
    RanksOf(recs, hash, pos, b);
    WordAt(file, 4 * b, tpos[b]);
  }

  /** The seat of a record: that of its rank in its bucket. */
  ghost predicate SeatIs(recs: seq<Rec>, hash: seq<byte> -> u32, seats: seq<seq<nat>>, at: seq<int>, i: nat)
    requires i < |recs| && |at| == |recs| && |seats| == 256
  {
    var b := hash(recs[i].key) % 256;
    var k := Count(recs, hash, b, i);
    k < |seats[b]| && at[i] == seats[b][k]
  }

  /** What is known of one record and its table. */
  lemma RankFacts(file: seq<byte>, recs: seq<Rec>, hash: seq<byte> -> u32, pos: seq<int>, tpos: seq<nat>,
                  tabs: seq<seq<Hp>>, es: seq<seq<Hp>>, seats: seq<seq<nat>>, i: nat)
    requires Tables(file, recs, hash, pos, tpos, tabs, es, seats) && i < |recs|
    ensures |pos| == |recs| + 1 && |tpos| == 257 && |tabs| == |es| == |seats| == 256
    ensures var b := hash(recs[i].key) % 256;
            var k := Count(recs, hash, b, i);
            && TableHere(file, tpos[b], tabs[b], es[b], seats[b]) && |seats[b]| == |es[b]|
            && |tabs[b]| == 2 * Count(recs, hash, b, |recs|)
            && k < |es[b]| && es[b][k].h == hash(recs[i].key) && es[b][k].p == pos[i]
  {
    hide TableAt, Probed, Count, Word;
    var b := hash(recs[i].key) % 256;
    assert TableB(file, recs, hash, pos, tpos, tabs[b], es[b], seats[b], b);
    assert RankIs(recs, hash, pos, b, es[b], i);
  }

  lemma SlotOf(file: seq<byte>, recs: seq<Rec>, hash: seq<byte> -> u32, pos: seq<int>, tpos: seq<nat>,
               tabs: seq<seq<Hp>>, es: seq<seq<Hp>>, seats: seq<seq<nat>>, at: seq<int>, i: nat)
    requires Tables(file, recs, hash, pos, tpos, tabs, es, seats) && i < |recs| && |at| == |recs|
    requires forall j :: 0 <= j < |recs| ==> SeatIs(recs, hash, seats, at, j)
    ensures SlotBytes(file, recs, hash, pos, tpos, at, i)
  {
    hide Tables, Word, Count, TableHere, SeatedAfter;
    var b := hash(recs[i].key) % 256;
    var k := Count(recs, hash, b, i);
    RankFacts(file, recs, hash, pos, tpos, tabs, es, seats, i);
    assert SeatIs(recs, hash, seats, at, i);
    SeatWords(file, tpos[b], tabs[b], es[b], seats[b], k);
    var d := SeatPath(file, recs, hash, pos, tpos, tabs, es, seats, at, i);
  }

  lemma SeatPath(file: seq<byte>, recs: seq<Rec>, hash: seq<byte> -> u32, pos: seq<int>, tpos: seq<nat>,
                 tabs: seq<seq<Hp>>, es: seq<seq<Hp>>, seats: seq<seq<nat>>, at: seq<int>, i: nat)
    returns (d: nat)
    requires Tables(file, recs, hash, pos, tpos, tabs, es, seats) && i < |recs| && |at| == |recs|
    requires forall j :: 0 <= j < |recs| ==> SeatIs(recs, hash, seats, at, j)
    ensures SeatedAfter(recs, hash, at, i, 2 * Count(recs, hash, hash(recs[i].key) % 256, |recs|), d)
  {
    hide Tables, Count, TableAt, Probed, Passed, TakenBefore;
    var b := hash(recs[i].key) % 256;
    var k := Count(recs, hash, b, i);
    RankFacts(file, recs, hash, pos, tpos, tabs, es, seats, i);
    assert SeatIs(recs, hash, seats, at, i);
    var len := |tabs[b]|;
    d := SeatSteps(tabs[b], es[b], seats[b], k);
    forall e | 0 <= e < d
      ensures TakenBefore(recs, hash, at, i, len, e)
    {
      assert Passed(es[b], seats[b], len, k, e);
      TakenBy(recs, hash, es[b], seats, at, b, i, len, e);
    }
  }

  lemma TakenBy(recs: seq<Rec>, hash: seq<byte> -> u32, es: seq<Hp>, seats: seq<seq<nat>>, at: seq<int>, b: nat, i: nat,
                len: nat, e: nat)
    requires i < |recs| && |at| == |recs| && |seats| == 256 && b == hash(recs[i].key) % 256 && len > 0
    requires forall j :: 0 <= j < |recs| ==> SeatIs(recs, hash, seats, at, j)
    requires |seats[b]| == |es| && Count(recs, hash, b, i) < |es| && es[Count(recs, hash, b, i)].h == hash(recs[i].key)
    requires Passed(es, seats[b], len, Count(recs, hash, b, i), e)
    ensures TakenBefore(recs, hash, at, i, len, e)
  {
    hide Count;
    var k := Count(recs, hash, b, i);
    var q :| 0 <= q < k && seats[b][q] == (es[k].h / 256 % len + e) % len;
    var j := CountHit(recs, hash, b, i, q);
    assert SeatIs(recs, hash, seats, at, j);
  }

  lemma Others(file: seq<byte>, recs: seq<Rec>, hash: seq<byte> -> u32, pos: seq<int>, tpos: seq<nat>,
               tabs: seq<seq<Hp>>, es: seq<seq<Hp>>, seats: seq<seq<nat>>, at: seq<int>)
    requires Tables(file, recs, hash, pos, tpos, tabs, es, seats) && |at| == |recs|
    requires forall j :: 0 <= j < |recs| ==> SeatIs(recs, hash, seats, at, j)
    ensures OthersZero(file, recs, hash, tpos, at)
  {
    hide Tables, Count, Word, SlotUsed, SeatIs;
    TablesCount(file, recs, hash, pos, tpos, tabs, es, seats);
    forall b, s | 0 <= b < 256 && 0 <= s < 2 * Count(recs, hash, b, |recs|) && !SlotUsed(recs, hash, at, b, s)
      ensures Word(file, tpos[b] + 8 * s, 0) && Word(file, tpos[b] + 8 * s + 4, 0)
    {
      UnusedZero(file, recs, hash, pos, tpos, tabs, es, seats, at, b, s);
    }
    forall i, j | 0 <= i < j < |recs| && hash(recs[i].key) % 256 == hash(recs[j].key) % 256
      ensures at[i] != at[j]
    {
      SeatsApart(file, recs, hash, pos, tpos, tabs, es, seats, at, i, j);
    }
  }

  lemma UnusedZero(file: seq<byte>, recs: seq<Rec>, hash: seq<byte> -> u32, pos: seq<int>, tpos: seq<nat>,
                   tabs: seq<seq<Hp>>, es: seq<seq<Hp>>, seats: seq<seq<nat>>, at: seq<int>, b: nat, s: nat)
    requires Tables(file, recs, hash, pos, tpos, tabs, es, seats) && |at| == |recs| && b < 256
    requires forall j :: 0 <= j < |recs| ==> SeatIs(recs, hash, seats, at, j)
    requires s < 2 * Count(recs, hash, b, |recs|) && !SlotUsed(recs, hash, at, b, s)
    ensures Word(file, tpos[b] + 8 * s, 0) && Word(file, tpos[b] + 8 * s + 4, 0)
  {
    hide Count, TableAt, Probed, Word, SlotUsed, SeatIs, RankIs;
    assert TableB(file, recs, hash, pos, tpos, tabs[b], es[b], seats[b], b);
    SeatsUsed(recs, hash, seats, at, b, s);
    FreeWords(file, tpos[b], tabs[b], es[b], seats[b], s);
  }

  lemma SeatsUsed(recs: seq<Rec>, hash: seq<byte> -> u32, seats: seq<seq<nat>>, at: seq<int>, b: nat, s: nat)
    requires |at| == |recs| && |seats| == 256 && b < 256 && |seats[b]| == Count(recs, hash, b, |recs|)
    requires forall j :: 0 <= j < |recs| ==> SeatIs(recs, hash, seats, at, j)
    ensures s in seats[b] ==> SlotUsed(recs, hash, at, b, s)
  {
    hide Count;
    if s in seats[b] {
      var q :| 0 <= q < |seats[b]| && seats[b][q] == s;
      var j := CountHit(recs, hash, b, |recs|, q);
      assert SeatIs(recs, hash, seats, at, j);
    }
  }

  lemma SeatsApart(file: seq<byte>, recs: seq<Rec>, hash: seq<byte> -> u32, pos: seq<int>, tpos: seq<nat>,
                   tabs: seq<seq<Hp>>, es: seq<seq<Hp>>, seats: seq<seq<nat>>, at: seq<int>, i: nat, j: nat)
    requires Tables(file, recs, hash, pos, tpos, tabs, es, seats) && |at| == |recs| && i < j < |recs|
    requires forall x :: 0 <= x < |recs| ==> SeatIs(recs, hash, seats, at, x)
    requires hash(recs[i].key) % 256 == hash(recs[j].key) % 256
    ensures at[i] != at[j]
  {
    hide Tables, Count, TableAt, Paved;
    var b := hash(recs[i].key) % 256;
    RankFacts(file, recs, hash, pos, tpos, tabs, es, seats, i);
    RankFacts(file, recs, hash, pos, tpos, tabs, es, seats, j);
    assert SeatIs(recs, hash, seats, at, i) && SeatIs(recs, hash, seats, at, j);
    CountRises(recs, hash, b, i, j);
  }

  /** Every complete database is laid out so. */
  lemma LayoutOf(file: seq<byte>, recs: seq<Rec>, hash: seq<byte> -> u32)
    returns (pos: seq<int>, tpos: seq<int>, at: seq<int>)
    requires IsCdb(file, recs, hash)
    ensures Laid(file, recs, hash, pos, tpos, at)
  {
    hide BucketOk, RecordAt, SlotBytes, OthersZero, HeaderBytes, RecordBytes, Storable, Tables, SeatIs, Starts;
    var tabs: seq<seq<Hp>>, tp: seq<nat> :| IsCdbWith(file, recs, hash, tabs, tp);
    tpos := tp;
    pos := seq(|recs| + 1, i requires 0 <= i <= |recs| => RecPos(recs, i));
    Positions(recs, pos);
    var es, seats := TablesOf(file, recs, hash, tabs, tp, pos);
    at := AllSeats(file, recs, hash, pos, tp, tabs, es, seats);
    Header(file, recs, hash, pos, tp, tabs, es, seats);
    forall i | 0 <= i < |recs|
      ensures RecordBytes(file, pos[i], recs[i].key, recs[i].data)
    {
      Record(file, RecPos(recs, i), recs[i]);
    }
    forall i | 0 <= i < |recs|
      ensures SlotBytes(file, recs, hash, pos, tpos, at, i)
    {
      SlotOf(file, recs, hash, pos, tp, tabs, es, seats, at, i);
    }
    Others(file, recs, hash, pos, tp, tabs, es, seats, at);
    StartsLength(recs, pos);
  }

  lemma StartsLength(recs: seq<Rec>, pos: seq<int>)
    requires Starts(recs, pos)
    ensures |pos| == |recs| + 1
  {
  }

  lemma TablesOf(file: seq<byte>, recs: seq<Rec>, hash: seq<byte> -> u32, tabs: seq<seq<Hp>>, tpos: seq<nat>,
                 pos: seq<int>)
    returns (es: seq<seq<Hp>>, seats: seq<seq<nat>>)
    requires |file| >= HEADER && |tabs| == 256 && |tpos| == 257
    requires forall b :: 0 <= b < 256 ==> BucketOk(file, recs, hash, tabs[b], tpos, b)
    requires |pos| == |recs| + 1 && forall i :: 0 <= i <= |recs| ==> pos[i] == RecPos(recs, i)
    ensures Tables(file, recs, hash, pos, tpos, tabs, es, seats)
  {
    hide BucketOk, Bucket, Hps, RecPos, TableB, IsTable;
    es, seats := [], [];
    while |es| < 256
      invariant |es| == |seats| <= 256
      invariant forall b :: 0 <= b < |es| ==> TableB(file, recs, hash, pos, tpos, tabs[b], es[b], seats[b], b)
    {
      var b := |es|;
      assert BucketOk(file, recs, hash, tabs[b], tpos, b);
      TableOf(file, recs, hash, pos, tpos, tabs[b], b);
      var e := Bucket(Hps(recs, hash), b);
      es, seats := es + [e], seats + [Seats(tabs[b], e)];
    }
  }

  lemma AllSeats(file: seq<byte>, recs: seq<Rec>, hash: seq<byte> -> u32, pos: seq<int>, tpos: seq<nat>,
                 tabs: seq<seq<Hp>>, es: seq<seq<Hp>>, seats: seq<seq<nat>>)
    returns (at: seq<int>)
    requires Tables(file, recs, hash, pos, tpos, tabs, es, seats)
    ensures |at| == |recs| && forall i :: 0 <= i < |recs| ==> SeatIs(recs, hash, seats, at, i)
  {
    hide Tables, Count, TableHere;
    TablesCount(file, recs, hash, pos, tpos, tabs, es, seats);
    at := [];
    while |at| < |recs|
      invariant |at| <= |recs|
      invariant forall i :: 0 <= i < |at| ==> SeatAt(recs, hash, seats, at[i], i)
    {
      var i := |at|;
      var b := hash(recs[i].key) % 256;
      RankFacts(file, recs, hash, pos, tpos, tabs, es, seats, i);
      at := at + [seats[b][Count(recs, hash, b, i)]];
    }
    forall i | 0 <= i < |recs|
      ensures SeatIs(recs, hash, seats, at, i)
    {
      assert SeatAt(recs, hash, seats, at[i], i);
    }
  }

  ghost predicate SeatAt(recs: seq<Rec>, hash: seq<byte> -> u32, seats: seq<seq<nat>>, s: int, i: nat)
    requires i < |recs| && |seats| == 256
  {
    var b := hash(recs[i].key) % 256;
    var k := Count(recs, hash, b, i);
    k < |seats[b]| && s == seats[b][k]
  }

  lemma TablesCount(file: seq<byte>, recs: seq<Rec>, hash: seq<byte> -> u32, pos: seq<int>, tpos: seq<nat>,
                    tabs: seq<seq<Hp>>, es: seq<seq<Hp>>, seats: seq<seq<nat>>)
    requires Tables(file, recs, hash, pos, tpos, tabs, es, seats)
    ensures |tpos| == 257 && |seats| == 256
  {
  }

  lemma Positions(recs: seq<Rec>, pos: seq<int>)
    requires |pos| == |recs| + 1 && forall i :: 0 <= i <= |recs| ==> pos[i] == RecPos(recs, i)
    ensures Starts(recs, pos)
  {
    forall i | 0 <= i < |recs|
      ensures pos[i + 1] == pos[i] + 6 + |recs[i].key| + |recs[i].data|
    {
      assert RecPos(recs, i + 1) == RecPos(recs, i) + RecSize(recs[i]);
    }
  }

  lemma Record(file: seq<byte>, p: nat, r: Rec)
    requires RecordAt(file, p, r) && Storable(r)
    ensures RecordBytes(file, p, r.key, r.data)
  {
  }

  lemma Header(file: seq<byte>, recs: seq<Rec>, hash: seq<byte> -> u32, pos: seq<int>, tpos: seq<nat>,
               tabs: seq<seq<Hp>>, es: seq<seq<Hp>>, seats: seq<seq<nat>>)
    requires Tables(file, recs, hash, pos, tpos, tabs, es, seats) && tpos[256] == |file|
    ensures HeaderBytes(file, recs, hash, tpos)
  {
    hide Word, TableAt, Probed, Count, RankIs;
    forall b | 0 <= b < 256
      ensures Word(file, 4 * b, tpos[b]) && tpos[b + 1] == tpos[b] + 16 * Count(recs, hash, b, |recs|)
    {
      assert TableB(file, recs, hash, pos, tpos, tabs[b], es[b], seats[b], b);
    }
  }

  /** Which records the writer takes. */
  lemma StorableIs(r: Rec)
    ensures Storable(r) <==> |r.key| <= 254 && |r.data| <= 16777213
  {
  }
}
